/** The segment clock (crates/sequencer/src/clock.rs): ticks are squarings, with
    one proof a segment. */
module Clock {
  import opened Wrappers
  import opened Digests
  import opened ModArith
  import opened Vdf

  /** `seeder` is the wide hash of (epoch, segment, x_end hash, C_end, entropy), left
      uninterpreted. */
  datatype Config = Config(n: Modulus, oracle: Oracle, seeder: (nat, nat, Digest, Digest, Digest) -> nat, epoch: nat,
                           q: nat, segmentTicks: nat, maxSegments: Option<nat>, genesisEntropy: Digest,
                           genesisC: Digest, genesisX: Digest)

  datatype SeedInput = SeedInput(cEnd: Digest, entropy: Digest)

  datatype ClockEvent =
    | Tick(segment: nat, tick: nat, x: nat)
    | SegmentEnd(segment: nat, y: nat, xEnd: nat)

  datatype SegmentSeal = SegmentSeal(epoch: nat, segment: nat, entropy: Digest, y: nat, xEnd: nat,
                                     proof: SequentialProof)

  const PROOF_DOMAIN := "posq-segment-proof-v1"

  /** Hash to the group: reduce, then square. */
  function SegmentSeed(cfg: Config, segment: nat, xEndHash: Digest, cEnd: Digest, entropy: Digest): (y: nat)
    ensures y < cfg.n
  {
    var x := cfg.seeder(cfg.epoch, segment, xEndHash, cEnd, entropy) % cfg.n;
    x * x % cfg.n
  }

  /** Every segment starts in a square, which the group hash guarantees. */
  lemma SeedIsSquare(cfg: Config, s: nat, x: Digest, c: Digest, e: Digest)
    ensures exists r: nat :: IsRoot(cfg.n, r, SegmentSeed(cfg, s, x, c, e))
  {
    assert IsRoot(cfg.n, cfg.seeder(cfg.epoch, s, x, c, e) % cfg.n, SegmentSeed(cfg, s, x, c, e));
  }

  predicate IsRoot(n: Modulus, r: nat, y: nat) {
    r < n && r * r % n == y
  }

  /** No input of the seed is ignored: for any two different sets of inputs some hash
      seeds the segments differently. */
  lemma SeedUsesEveryInput(cfg: Config, epoch: nat, s: nat, x: Digest, c: Digest, e: Digest,
                           epoch': nat, s': nat, x': Digest, c': Digest, e': Digest)
    requires (epoch, s, x, c, e) != (epoch', s', x', c', e')
    ensures exists seeder ::
              SegmentSeed(cfg.(seeder := seeder, epoch := epoch), s, x, c, e)
              != SegmentSeed(cfg.(seeder := seeder, epoch := epoch'), s', x', c', e')
  {
    var seeder := (a: nat, b: nat, p: Digest, q: Digest, r: Digest) =>
      if (a, b, p, q, r) == (epoch, s, x, c, e) then 1 else 0;
    ModSmall(1, cfg.n);
    ModSmall(0, cfg.n);
    assert SegmentSeed(cfg.(seeder := seeder, epoch := epoch), s, x, c, e) == 1;
    assert SegmentSeed(cfg.(seeder := seeder, epoch := epoch'), s', x', c', e') == 0;
  }

  /** What segment s is seeded with: the previous segment's end state, and the seed
      the coordinator sent after it. */
  function PrevXHash(cfg: Config, seeds: seq<SeedInput>, s: nat): Digest
    requires s <= |seeds|
    decreases s, 0
  {
    if s == 0 then cfg.genesisX else GroupElement(XEnd(cfg, seeds, s - 1))
  }

  function PrevC(cfg: Config, seeds: seq<SeedInput>, s: nat): Digest
    requires s <= |seeds|
  {
    if s == 0 then cfg.genesisC else seeds[s - 1].cEnd
  }

  function Entropy(cfg: Config, seeds: seq<SeedInput>, s: nat): Digest
    requires s <= |seeds|
  {
    if s == 0 then cfg.genesisEntropy else seeds[s - 1].entropy
  }

  function Start(cfg: Config, seeds: seq<SeedInput>, s: nat): (y: nat)
    requires s <= |seeds|
    ensures y < cfg.n
    decreases s, 1
  {
    SegmentSeed(cfg, s, PrevXHash(cfg, seeds, s), PrevC(cfg, seeds, s), Entropy(cfg, seeds, s))
  }

  /** The state after the first k ticks of segment s. */
  function StateAt(cfg: Config, seeds: seq<SeedInput>, s: nat, k: nat): nat
    requires s <= |seeds|
    decreases s, 2
  {
    Sequential(cfg.n, Start(cfg, seeds, s), cfg.q * k)
  }

  function XEnd(cfg: Config, seeds: seq<SeedInput>, s: nat): nat
    requires s <= |seeds|
    decreases s, 3
  {
    StateAt(cfg, seeds, s, cfg.segmentTicks)
  }

  function TickEvents(cfg: Config, seeds: seq<SeedInput>, s: nat, k: nat): (events: seq<ClockEvent>)
    requires s <= |seeds|
    ensures |events| == k
  {
    seq(k, i requires 0 <= i < k => Tick(s, s * cfg.segmentTicks + i + 1, StateAt(cfg, seeds, s, i + 1)))
  }

  /** Everything sent over the first m segments. */
  function Events(cfg: Config, seeds: seq<SeedInput>, m: nat): seq<ClockEvent>
    requires m <= |seeds| + 1
    decreases m
  {
    if m == 0 then []
    else
      Events(cfg, seeds, m - 1) + TickEvents(cfg, seeds, m - 1, cfg.segmentTicks)
      + [SegmentEnd(m - 1, Start(cfg, seeds, m - 1), XEnd(cfg, seeds, m - 1))]
  }

  function SegmentProof(cfg: Config, seeds: seq<SeedInput>, s: nat): SequentialProof
    requires s <= |seeds|
  {
    HonestProof(cfg.n, cfg.oracle, PROOF_DOMAIN, Start(cfg, seeds, s), cfg.q * cfg.segmentTicks)
  }

  /** The clock stops at the segment limit, or when no further seed arrives. */
  function SegmentCount(cfg: Config, seeds: seq<SeedInput>): (m: nat)
    ensures m <= |seeds| + 1
  {
    if cfg.maxSegments.Some? && cfg.maxSegments.value <= |seeds| then cfg.maxSegments.value else |seeds| + 1
  }

  /** `run_clock`, with the seeds it receives in order. A segment's proof is made
      beside the clock, so proofs are listed apart from the events. */
  method RunClock(cfg: Config, seeds: seq<SeedInput>) returns (events: seq<ClockEvent>, proofs: seq<SequentialProof>)
    ensures events == Events(cfg, seeds, SegmentCount(cfg, seeds))
    ensures |proofs| == SegmentCount(cfg, seeds)
    ensures |proofs| <= |seeds| + 1 && (cfg.maxSegments.Some? ==> |proofs| <= cfg.maxSegments.value)
    ensures |proofs| == |seeds| + 1 || cfg.maxSegments == Some(|proofs|)
    ensures forall s | 0 <= s < |proofs| :: proofs[s] == SegmentProof(cfg, seeds, s)
  {
    hide Sequential;
    hide ModPow;
    hide SegmentSeed;
    hide TickEvents;
    var prevXHash, prevC, entropy := cfg.genesisX, cfg.genesisC, cfg.genesisEntropy;
    var segment := 0;
    events, proofs := [], [];
    while true
      invariant segment <= |seeds| && segment <= SegmentCount(cfg, seeds)
      invariant prevXHash == PrevXHash(cfg, seeds, segment) && prevC == PrevC(cfg, seeds, segment)
      invariant entropy == Entropy(cfg, seeds, segment)
      invariant events == Events(cfg, seeds, segment) && |proofs| == segment
      invariant forall s | 0 <= s < |proofs| :: proofs[s] == SegmentProof(cfg, seeds, s)
      decreases |seeds| - segment
    {
      if cfg.maxSegments.Some? && segment >= cfg.maxSegments.value {
        return;
      }
      var y := SegmentSeed(cfg, segment, prevXHash, prevC, entropy);
      var ticks, xEnd := RunSegment(cfg, seeds, segment, y);
      events := events + ticks + [SegmentEnd(segment, y, xEnd)];
      var t := cfg.q * cfg.segmentTicks;
      var pi := ProveWithOutput(cfg.n, cfg.oracle, PROOF_DOMAIN, y, xEnd, t);
      proofs := proofs + [SequentialProof(xEnd, pi, t)];
      if segment == |seeds| {
        return;
      }
      prevXHash, prevC, entropy := GroupElement(xEnd), seeds[segment].cEnd, seeds[segment].entropy;
      segment := segment + 1;
    }
  }

  method RunSegment(cfg: Config, seeds: seq<SeedInput>, segment: nat, y: nat) returns (ticks: seq<ClockEvent>, x: nat)
    requires segment <= |seeds| && y == Start(cfg, seeds, segment)
    ensures ticks == TickEvents(cfg, seeds, segment, cfg.segmentTicks) && x == XEnd(cfg, seeds, segment)
  {
    x, ticks := y, [];
    for i := 0 to cfg.segmentTicks
      invariant x == StateAt(cfg, seeds, segment, i) && ticks == TickEvents(cfg, seeds, segment, i)
    {
      NextState(cfg, seeds, segment, i);
      x := TickAdvance(cfg.n, x, cfg.q);
      ticks := ticks + [Tick(segment, segment * cfg.segmentTicks + i + 1, x)];
    }
  }

  /** A tick is q squarings on from the tick before. */
  lemma NextState(cfg: Config, seeds: seq<SeedInput>, s: nat, k: nat)
    requires s <= |seeds|
    ensures StateAt(cfg, seeds, s, k + 1) == Sequential(cfg.n, StateAt(cfg, seeds, s, k), cfg.q)
  {
    AdvancesCompose(cfg.n, Start(cfg, seeds, s), cfg.q * k, cfg.q);
    assert cfg.q * (k + 1) == cfg.q * k + cfg.q;
  }

  // ----- what a run shows

  function Ticks(events: seq<ClockEvent>): seq<ClockEvent>
    decreases |events|
  {
    if events == [] then []
    else Ticks(events[..|events| - 1]) + if events[|events| - 1].Tick? then [events[|events| - 1]] else []
  }

  lemma {:induction false} TicksConcat(a: seq<ClockEvent>, b: seq<ClockEvent>)
    ensures Ticks(a + b) == Ticks(a) + Ticks(b)
    decreases |b|
  {
    if b == [] {
      assert a + b == a;
    } else {
      TicksConcat(a, b[..|b| - 1]);
      assert (a + b)[..|a + b| - 1] == a + b[..|b| - 1];
    }
  }

  lemma {:induction false} TicksOfTicks(events: seq<ClockEvent>)
    requires forall i | 0 <= i < |events| :: events[i].Tick?
    ensures Ticks(events) == events
    decreases |events|
  {
    if events != [] {
      TicksOfTicks(events[..|events| - 1]);
    }
  }

  /** Over any run the ticks are numbered 1, 2, 3, ..., F to a segment. */
  lemma {:induction false} TicksAreConsecutive(cfg: Config, seeds: seq<SeedInput>, m: nat)
    requires m <= |seeds| + 1
    ensures |Ticks(Events(cfg, seeds, m))| == m * cfg.segmentTicks
    ensures forall k | 0 <= k < |Ticks(Events(cfg, seeds, m))| ::
      Ticks(Events(cfg, seeds, m))[k].Tick? && Ticks(Events(cfg, seeds, m))[k].tick == k + 1
    decreases m
  {
    if m > 0 {
      TicksAreConsecutive(cfg, seeds, m - 1);
      LastSegmentTicks(cfg, seeds, m);
      assert m * cfg.segmentTicks == (m - 1) * cfg.segmentTicks + cfg.segmentTicks;
    }
  }

  /** The tick at place s * F + i of a run is the i-th of segment s, and carries its
      state. */
  lemma {:induction false} TickAt(cfg: Config, seeds: seq<SeedInput>, m: nat, s: nat, i: nat)
    requires s < m <= |seeds| + 1 && i < cfg.segmentTicks
    ensures var k := s * cfg.segmentTicks + i;
            && k < |Ticks(Events(cfg, seeds, m))|
            && Ticks(Events(cfg, seeds, m))[k] == Tick(s, k + 1, StateAt(cfg, seeds, s, i + 1))
    decreases m
  {
    hide StateAt;
    hide XEnd;
    hide Start;
    hide PrevXHash;
    hide Events;
    hide Ticks;
    hide TickEvents;
    var f, before := cfg.segmentTicks, Ticks(Events(cfg, seeds, m - 1));
    TickCount(cfg, seeds, m - 1);
    LastSegmentTicks(cfg, seeds, m);
    if s < m - 1 {
      PlaceBelow(s, m - 1, f, i);
      TickAt(cfg, seeds, m - 1, s, i);
    } else {
      TickEventAt(cfg, seeds, s, f, i);
    }
  }

  lemma TickEventAt(cfg: Config, seeds: seq<SeedInput>, s: nat, f: nat, i: nat)
    requires s <= |seeds| && i < f == cfg.segmentTicks
    ensures TickEvents(cfg, seeds, s, f)[i] == Tick(s, s * cfg.segmentTicks + i + 1, StateAt(cfg, seeds, s, i + 1))
  {}

  lemma TickCount(cfg: Config, seeds: seq<SeedInput>, m: nat)
    requires m <= |seeds| + 1
    ensures |Ticks(Events(cfg, seeds, m))| == m * cfg.segmentTicks
  {
    TicksAreConsecutive(cfg, seeds, m);
  }

  lemma PlaceBelow(s: nat, m: nat, f: nat, i: nat)
    requires s < m && i < f
    ensures s * f + i < m * f
  {
    MulMonotone(s + 1, m, f);
    assert (s + 1) * f == s * f + f;
  }

  lemma LastSegmentTicks(cfg: Config, seeds: seq<SeedInput>, m: nat)
    requires 0 < m <= |seeds| + 1
    ensures Ticks(Events(cfg, seeds, m))
         == Ticks(Events(cfg, seeds, m - 1)) + TickEvents(cfg, seeds, m - 1, cfg.segmentTicks)
  {
    hide StateAt;
    hide XEnd;
    hide Start;
    var before := Events(cfg, seeds, m - 1);
    var ticks := TickEvents(cfg, seeds, m - 1, cfg.segmentTicks);
    var end := SegmentEnd(m - 1, Start(cfg, seeds, m - 1), XEnd(cfg, seeds, m - 1));
    TicksConcat(before + ticks, [end]);
    TicksConcat(before, ticks);
    TicksOfTicks(ticks);
    assert [end][..0] == [];
  }

  /** Every tick shows its segment and a state q squarings on from the tick before it,
      or from the seed for the first of a segment. */
  lemma TicksAdvance(cfg: Config, seeds: seq<SeedInput>, m: nat, s: nat, i: nat)
    requires s < m <= |seeds| + 1 && i < cfg.segmentTicks
    ensures var k, ticks := s * cfg.segmentTicks + i, Ticks(Events(cfg, seeds, m));
            && k < |ticks| && ticks[k].Tick? && ticks[k].segment == s && ticks[k].tick == k + 1
            && (i > 0 ==> ticks[k - 1].Tick? && ticks[k].x == Sequential(cfg.n, ticks[k - 1].x, cfg.q))
            && (i == 0 ==> ticks[k].x == Sequential(cfg.n, Start(cfg, seeds, s), cfg.q))
  {
    TickAt(cfg, seeds, m, s, i);
    NextState(cfg, seeds, s, i);
    if i > 0 {
      TickAt(cfg, seeds, m, s, i - 1);
    }
    hide Sequential;
    hide ModPow;
    hide Ticks;
    hide Events;
    assert StateAt(cfg, seeds, s, 0) == Sequential(cfg.n, Start(cfg, seeds, s), 0) by {
      assert cfg.q * 0 == 0;
    }
    StartIsZeroth(cfg.n, Start(cfg, seeds, s));
  }

  lemma StartIsZeroth(n: Modulus, x: nat)
    ensures Sequential(n, x, 0) == x
  {}

  /** A segment's end event shows its seed and the state of its last tick. */
  lemma EndShowsLastTick(cfg: Config, seeds: seq<SeedInput>, m: nat)
    requires m <= |seeds| && cfg.segmentTicks > 0
    ensures var events := Events(cfg, seeds, m + 1);
            && |events| >= 2 && events[|events| - 2].Tick?
            && events[|events| - 1] == SegmentEnd(m, Start(cfg, seeds, m), events[|events| - 2].x)
  {
    hide StateAt;
    var ticks := TickEvents(cfg, seeds, m, cfg.segmentTicks);
    var front := Events(cfg, seeds, m) + ticks;
    assert front[|front| - 1] == ticks[|ticks| - 1];
  }

  predicate VerifySegment(cfg: Config, segment: nat, prevXHash: Digest, prevC: Digest, seal: SegmentSeal) {
    && seal.y == SegmentSeed(cfg, segment, prevXHash, prevC, seal.entropy)
    && seal.proof.iterations == cfg.q * cfg.segmentTicks
    && seal.proof.y == seal.xEnd
    && VerifySequential(cfg.n, cfg.oracle, PROOF_DOMAIN, seal.y, seal.proof) == Checked(true)
  }

  /** The seal built from a segment's end event and its proof. */
  function SealOf(cfg: Config, seeds: seq<SeedInput>, s: nat): SegmentSeal
    requires s <= |seeds|
  {
    SegmentSeal(cfg.epoch, s, Entropy(cfg, seeds, s), Start(cfg, seeds, s), XEnd(cfg, seeds, s),
                SegmentProof(cfg, seeds, s))
  }

  /** Every segment of every run passes the watcher's check, against the published
      end of the segment before it. */
  lemma EverySegmentVerifies(cfg: Config, seeds: seq<SeedInput>, s: nat)
    requires s <= |seeds|
    ensures VerifySegment(cfg, s, PrevXHash(cfg, seeds, s), PrevC(cfg, seeds, s), SealOf(cfg, seeds, s))
  {
    hide VerifySequential;
    hide Sequential;
    hide ModPow;
    assert XEnd(cfg, seeds, s) == StateAt(cfg, seeds, s, cfg.segmentTicks);
    assert Start(cfg, seeds, s) < cfg.n;
    HonestProofAccepted(cfg.n, cfg.oracle, PROOF_DOMAIN, Start(cfg, seeds, s), cfg.q * cfg.segmentTicks);
  }
}
