/** What one wrong witness does to a batched wave: the random weight of its position
    decides (crates/vdf/src/batch_solve.rs:52-67, 110-138). */
module WaveFaults {
  import opened Wrappers
  import opened ModArith
  import opened Vdf
  import opened Digests
  import opened Timelock
  import opened Verdicts

  /** The weight of each position: over the binding, its index, its base and the witness
      claimed for it. */
  function WeightsOf(rho: Weights, binding: Bytes, us: seq<nat>, ws: seq<nat>): (es: seq<nat>)
    requires |us| == |ws|
    ensures |es| == |us|
  {
    seq(|us|, i requires 0 <= i < |us| => rho(binding, i, us[i], ws[i]))
  }

  /** The product of the first k powers. */
  function Product(n: Modulus, bs: seq<nat>, es: seq<nat>, k: nat): (p: nat)
    requires k <= |bs| == |es|
    ensures p < n
  {
    if k == 0 then 1 else Product(n, bs, es, k - 1) * ModPow(bs[k - 1], es[k - 1], n) % n
  }

  lemma {:induction false} AggregatesAreProducts(n: Modulus, rho: Weights, binding: Bytes, us: seq<nat>, ws: seq<nat>,
                                                 k: nat)
    requires k <= |us| == |ws|
    ensures AggregateU(n, rho, binding, us, ws, k) == Product(n, us, WeightsOf(rho, binding, us, ws), k)
    ensures AggregateW(n, rho, binding, us, ws, k) == Product(n, ws, WeightsOf(rho, binding, us, ws), k)
  {
    if k > 0 {
      AggregatesAreProducts(n, rho, binding, us, ws, k - 1);
    }
  }

  /** Raising to a power goes through the product. */
  lemma {:induction false} PowerOfProduct(n: Modulus, bs: seq<nat>, ps: seq<nat>, es: seq<nat>, p: nat, k: nat)
    requires k <= |bs| == |es| == |ps| && forall i | 0 <= i < |bs| :: ps[i] == ModPow(bs[i], p, n)
    ensures Product(n, ps, es, k) == ModPow(Product(n, bs, es, k), p, n)
  {
    if k == 0 {
      PowOfOne(p);
      ModSmall(1, n);
    } else {
      PowerOfProduct(n, bs, ps, es, p, k - 1);
      var b, e := bs[k - 1], es[k - 1];
      ModPowPow(b, p, e, n);
      ModPowPow(b, e, p, n);
      assert p * e == e * p;
      PowersOfProduct(n, Product(n, bs, es, k - 1), ModPow(b, e, n), p);
    }
  }

  /** Every base has an inverse. */
  ghost predicate Invertible(n: Modulus, bs: seq<nat>) {
    forall i | 0 <= i < |bs| :: HasInverse(n, bs[i])
  }

  ghost predicate HasInverse(n: Modulus, b: nat) {
    exists z: nat :: b * z % n == 1
  }

  lemma PowerHasInverse(n: Modulus, b: nat, e: nat)
    requires HasInverse(n, b)
    ensures HasInverse(n, ModPow(b, e, n))
  {
    var z: nat :| b * z % n == 1;
    PowerInverse(b, z, e, n);
  }

  lemma {:induction false} ProductHasInverse(n: Modulus, bs: seq<nat>, es: seq<nat>, k: nat)
    requires k <= |bs| == |es| && Invertible(n, bs)
    ensures HasInverse(n, Product(n, bs, es, k))
  {
    if k == 0 {
      ModSmall(1, n);
      assert 1 * 1 % n == 1;
    } else {
      ProductHasInverse(n, bs, es, k - 1);
      PowerHasInverse(n, bs[k - 1], es[k - 1]);
      var a, b := Product(n, bs, es, k - 1), ModPow(bs[k - 1], es[k - 1], n);
      var x: nat :| a * x % n == 1;
      var y: nat :| b * y % n == 1;
      InverseOfProduct(a, b, x, y, n);
    }
  }

  lemma InverseOfProduct(a: nat, b: nat, x: nat, y: nat, n: Modulus)
    requires a * x % n == 1 && b * y % n == 1
    ensures (a * b % n) * (x * y) % n == 1
  {
    ModMulLeft(a * b, x * y, n);
    MulSwap(a, b, x, y);
    ModMul(a * x, b * y, n);
    ModSmall(1, n);
  }

  /** A common invertible factor cancels. */
  lemma CancelLeft(c: nat, a: nat, b: nat, n: Modulus)
    requires HasInverse(n, c) && a < n && b < n
    ensures c * a % n == c * b % n <==> a == b
  {
    var z: nat :| c * z % n == 1;
    if c * a % n == c * b % n {
      assert c * a == a * c && c * b == b * c;
      Cancel(a, b, c, z, n);
      ModSmall(a, n);
      ModSmall(b, n);
    }
  }

  /** Products over lists that differ in one place agree exactly when the two powers
      there do. */
  lemma {:induction false} OneFactorDecides(n: Modulus, bs: seq<nat>, cs: seq<nat>, es: seq<nat>, j: nat, k: nat)
    requires j < k <= |bs| == |cs| == |es| && Invertible(n, bs)
    requires forall i | 0 <= i < |bs| && i != j :: cs[i] == bs[i]
    ensures Product(n, bs, es, k) == Product(n, cs, es, k) <==> ModPow(bs[j], es[j], n) == ModPow(cs[j], es[j], n)
  {
    hide ModPow;
    hide HasInverse;
    var a, b := Product(n, bs, es, k - 1), Product(n, cs, es, k - 1);
    if k == j + 1 {
      SamePrefixProduct(n, bs, cs, es, j);
      ProductHasInverse(n, bs, es, j);
      CancelLeft(a, ModPow(bs[j], es[j], n), ModPow(cs[j], es[j], n), n);
    } else {
      OneFactorDecides(n, bs, cs, es, j, k - 1);
      PowerHasInverse(n, bs[k - 1], es[k - 1]);
      CancelRight(ModPow(bs[k - 1], es[k - 1], n), a, b, n);
    }
  }

  lemma CancelRight(c: nat, a: nat, b: nat, n: Modulus)
    requires HasInverse(n, c) && a < n && b < n
    ensures a * c % n == b * c % n <==> a == b
  {
    assert c * a == a * c && c * b == b * c;
    CancelLeft(c, a, b, n);
  }

  lemma {:induction false} SamePrefixProduct(n: Modulus, bs: seq<nat>, cs: seq<nat>, es: seq<nat>, k: nat)
    requires k <= |bs| == |cs| == |es| && forall i | 0 <= i < k :: cs[i] == bs[i]
    ensures Product(n, bs, es, k) == Product(n, cs, es, k)
  {
    if k > 0 {
      SamePrefixProduct(n, bs, cs, es, k - 1);
    }
  }

  /** The solutions of a wave. */
  function Solutions(n: Modulus, us: seq<nat>, t: nat): (ss: seq<nat>)
    ensures |ss| == |us|
  {
    seq(|us|, i requires 0 <= i < |us| => ModPow(us[i], Pow(2, t), n))
  }

  /** A wave with one wrong witness, beside the honest element for its aggregate, is
      accepted exactly when the witness and the solution have one power under the weight
      of their position. */
  lemma OneWrongWitness(params: TlkParams, h: Oracle, rho: Weights, binding: Bytes, cts: seq<Ciphertext>,
                        sol: WaveSolution, j: nat)
    requires WaveFits(params, cts, sol) && j < |cts|
    requires var t := params.classes[sol.delayClass].squarings;
             var us := Bases(cts);
             && Invertible(params.n, Solutions(params.n, us, t))
             && (forall i | 0 <= i < |cts| && i != j :: sol.witnesses[i] == Solutions(params.n, us, t)[i])
             && sol.proof == Claim(params.n, h, SOLVE_DOMAIN,
                                   AggregateU(params.n, rho, binding, us, sol.witnesses, |cts|),
                                   AggregateW(params.n, rho, binding, us, sol.witnesses, |cts|), t)
    ensures var solution := ModPow(cts[j].u, Pow(2, params.classes[sol.delayClass].squarings), params.n);
            var weight := rho(binding, j, cts[j].u, sol.witnesses[j]);
            VerifyWave(params, h, rho, binding, cts, sol)
            == Some(Checked(ModPow(solution, weight, params.n) == ModPow(sol.witnesses[j], weight, params.n)))
  {
    var n, t, us, ws := params.n, params.classes[sol.delayClass].squarings, Bases(cts), sol.witnesses;
    var ss, es := Solutions(n, us, t), WeightsOf(rho, binding, us, ws);
    AggregatesAreProducts(n, rho, binding, us, ws, |cts|);
    WaveVerdict(params, h, rho, binding, cts, sol);
    PowerOfProduct(n, us, ss, es, Pow(2, t), |cts|);
    OneFactorDecides(n, ss, ws, es, j, |cts|);
    hide VerifyWave;
    hide Product;
    hide ModPow;
  }
}
