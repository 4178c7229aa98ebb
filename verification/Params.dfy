/** Deployment parameters and the no-look inequality
    (crates/sequencer/src/params.rs). */
module Params {
  import opened Wrappers
  import opened ModArith
  import opened Digests

  datatype PosqParams = PosqParams(
    epoch: nat, deltaMicros: nat, squarings: nat, segmentTicks: nat, windowTicks: nat, gammaTicks: nat,
    xiMuMicros: nat, alphaNum: nat, alphaDen: nat, delayClasses: seq<nat>, graceSegments: nat,
    envelopeBytes: nat, capacity: nat, anchorEverySegments: nat)

  /** Divisors the arithmetic needs, and room for the fixed envelope fields. */
  predicate Usable(p: PosqParams) {
    p.squarings > 0 && p.deltaMicros > 0 && p.alphaDen > 0 && p.envelopeBytes >= 382
  }

  function DivCeil(a: nat, b: nat): nat
    requires b > 0
  {
    a / b + if a % b == 0 then 0 else 1
  }

  /** D_k: a delay class in ticks. */
  function DelayTicks(p: PosqParams, k: nat): Option<nat>
    requires Usable(p)
  {
    if k < |p.delayClasses| then Some(DivCeil(p.delayClasses[k], p.squarings)) else None
  }

  function GraceTicks(p: PosqParams): nat {
    p.graceSegments * p.segmentTicks
  }

  function MinDelaySquarings(p: PosqParams, windowTicks: nat): nat
    requires Usable(p)
  {
    var exposure := (windowTicks + p.gammaTicks) * p.deltaMicros + p.xiMuMicros;
    MulPositive(p.alphaDen, p.deltaMicros);
    DivCeil(p.alphaNum * p.squarings * exposure, p.alphaDen * p.deltaMicros)
  }

  datatype NoLook = Passes | Violates(delayClass: nat, squarings: nat, minimum: nat)

  /** `check_no_look`: the first delay class that violates the inequality. */
  method CheckNoLook(p: PosqParams) returns (r: NoLook)
    requires Usable(p)
    ensures r.Passes? <==> NoLookHolds(p)
    ensures r.Violates? ==>
              && r.delayClass < |p.delayClasses| && r.squarings == p.delayClasses[r.delayClass]
              && r.squarings <= r.minimum == MinDelaySquarings(p, p.windowTicks)
              && forall j | 0 <= j < r.delayClass :: p.delayClasses[j] > r.minimum
  {
    var minT := MinDelaySquarings(p, p.windowTicks);
    for k := 0 to |p.delayClasses|
      invariant forall j | 0 <= j < k :: p.delayClasses[j] > minT
    {
      if p.delayClasses[k] <= minT {
        return Violates(k, p.delayClasses[k], minT);
      }
    }
    r := Passes;
  }

  ghost predicate NoLookHolds(p: PosqParams)
    requires Usable(p)
  {
    forall k | 0 <= k < |p.delayClasses| :: p.delayClasses[k] > MinDelaySquarings(p, p.windowTicks)
  }

  /** x / y >= z, from x >= z * y. */
  lemma QuotientAtLeast(x: nat, y: nat, z: nat)
    requires y > 0 && x >= z * y
    ensures x / y >= z
  {
    var d := x / y - z;
    assert x == (x / y) * y + x % y;
    if d < 0 {
      MulMonotone(x / y + 1, z, y);
    }
  }

  /** The minimum delay covers the whole window and the publication slack when
      the adversary is no slower than the public rate. */
  lemma MinimumCoversWindow(p: PosqParams)
    requires Usable(p) && p.alphaNum >= p.alphaDen
    ensures MinDelaySquarings(p, p.windowTicks) >= p.squarings * (p.windowTicks + p.gammaTicks)
  {
    var w := p.windowTicks + p.gammaTicks;
    var exposure := w * p.deltaMicros + p.xiMuMicros;
    MulPositive(p.alphaDen, p.deltaMicros);
    ExposureProduct(p.alphaNum, p.alphaDen, p.squarings, w, p.deltaMicros, exposure);
    QuotientAtLeast(p.alphaNum * p.squarings * exposure, p.alphaDen * p.deltaMicros, p.squarings * w);
  }

  lemma ExposureProduct(num: nat, den: nat, q: nat, w: nat, delta: nat, exposure: nat)
    requires num >= den && exposure >= w * delta
    ensures num * q * exposure >= (q * w) * (den * delta)
  {
    MulMonotone(den, num, q);
    MulMonotone(den * q, num * q, exposure);
    MulMonotone(w * delta, exposure, den * q);
    assert (den * q) * (w * delta) == (q * w) * (den * delta) by {
      MulSwap(den, q, w, delta);
      MulSwap(q, w, den, delta);
      assert den * w == w * den;
      MulSwap(q, delta, den, w);
      assert (den * w) * (q * delta) == (q * delta) * (den * w);
      assert q * den == den * q;
    }
  }

  /** The guarantee behind the startup check: a commitment admitted inside its
      window matures strictly after the window's end plus the slack, so nothing is
      readable while it can still be reacted to. */
  lemma MaturesAfterWindow(p: PosqParams, k: nat, window: Window, tick: nat)
    requires Usable(p) && NoLookHolds(p) && p.alphaNum >= p.alphaDen
    requires k < |p.delayClasses| && 0 < window.len <= p.windowTicks
    requires window.start <= tick
    ensures tick + DelayTicks(p, k).value > window.End() + p.gammaTicks
  {
    MinimumCoversWindow(p);
    var t, q, w := p.delayClasses[k], p.squarings, p.windowTicks + p.gammaTicks;
    assert t > q * w;
    CeilCovers(t, q);
    if DivCeil(t, q) <= w {
      MulMonotone(DivCeil(t, q), w, q);
    }
  }

  /** DivCeil is the least quotient whose multiple covers a. */
  lemma CeilIsLeast(a: nat, b: nat, m: nat)
    requires b > 0
    ensures m * b >= a <==> m >= DivCeil(a, b)
  {
    CeilCovers(a, b);
    if m >= DivCeil(a, b) {
      MulMonotone(DivCeil(a, b), m, b);
    } else {
      MulMonotone(m + 1, DivCeil(a, b), b);
      assert (m + 1) * b == m * b + b;
      assert a == (a / b) * b + a % b;
      assert (a / b + 1) * b == (a / b) * b + b;
    }
  }

  /** A class matures after the least number of ticks whose squarings cover its delay. */
  lemma DelayIsLeast(p: PosqParams, k: nat, ticks: nat)
    requires Usable(p) && k < |p.delayClasses|
    ensures DelayTicks(p, k).Some?
    ensures ticks * p.squarings >= p.delayClasses[k] <==> ticks >= DelayTicks(p, k).value
  {
    CeilIsLeast(p.delayClasses[k], p.squarings, ticks);
  }

  /** The grace is a whole number of segments: a tick and the end of its grace stand at
      one place of their segments, `graceSegments` apart. */
  lemma GraceIsSegments(p: PosqParams, tick: nat)
    requires p.segmentTicks > 0
    ensures (tick + GraceTicks(p)) / p.segmentTicks == tick / p.segmentTicks + p.graceSegments
    ensures (tick + GraceTicks(p)) % p.segmentTicks == tick % p.segmentTicks
  {
    ModAddMultiple(tick, p.graceSegments, p.segmentTicks);
  }

  /** The minimum is the least delay that, at the public rate of `squarings` in
      `deltaMicros`, an adversary faster by alphaNum / alphaDen needs the whole exposure
      for: the window and the slack in time, and the clock uncertainty. */
  lemma MinimumIsLeast(p: PosqParams, windowTicks: nat, delay: nat)
    requires Usable(p)
    ensures var exposure := (windowTicks + p.gammaTicks) * p.deltaMicros + p.xiMuMicros;
            delay * (p.alphaDen * p.deltaMicros) >= p.alphaNum * p.squarings * exposure
            <==> delay >= MinDelaySquarings(p, windowTicks)
  {
    var exposure := (windowTicks + p.gammaTicks) * p.deltaMicros + p.xiMuMicros;
    MulPositive(p.alphaDen, p.deltaMicros);
    CeilIsLeast(p.alphaNum * p.squarings * exposure, p.alphaDen * p.deltaMicros, delay);
  }

  lemma CeilCovers(t: nat, q: nat)
    requires q > 0
    ensures DivCeil(t, q) * q >= t
  {
    assert t == (t / q) * q + t % q;
    assert (t / q + 1) * q == (t / q) * q + q;
  }
}
