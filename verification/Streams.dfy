/** Ordered streams and their roots: the item accumulator and the execution
    stream (crates/continuum-lighter-plugin/src/accumulator.rs, binding.rs,
    types.rs). */
module Streams {

  /** A 32-byte value. */
  type Hash32 = nat

  datatype Resolution = Clear | BadAead | BadEncoding | L1Cancelled {
    /** The wire code, `as u16`. */
    function Code(): nat {
      match this
      case Clear => 0
      case BadAead => 1
      case BadEncoding => 2
      case L1Cancelled => 3
    }
  }

  datatype DerivedItem = DerivedItem(
    domainHash: Hash32, frameId: nat, chunkId: nat, tick: nat, position: nat, envelopeHash: Hash32,
    receiptDigest: Hash32, resolution: Resolution, cleartextLength: nat, cleartextHash: seq<nat>,
    terminalReason: nat)

  datatype ExecutionItem = ExecutionItem(logicalIndex: nat, txType: nat, txHash: seq<nat>, outcomeClass: nat,
                                         terminalNoop: bool)

  datatype BindingInputs = BindingInputs(
    domainHash: Hash32, epoch: nat, oldGlobalCursor: nat, newGlobalCursor: nat, oldTranscriptRoot: Hash32,
    newTranscriptRoot: Hash32, framePlanRoot: Hash32, orderedItemRoot: Hash32, executionStreamRoot: Hash32,
    orderedItemCount: nat, priorityStart: nat, priorityEnd: nat, priorityRoot: Hash32, oracleSnapshotRoot: Hash32,
    protocolEventRoot: Hash32, l1OriginHash: Hash32, policyHash: Hash32, decryptionModuleId: Hash32)

  /** What is hashed: the domain tag and the fixed-width fields, as a tuple. */
  datatype Preimage =
    | ItemsInit(domain: Hash32, frameId: nat, startCursor: nat, count: nat)
    | ItemStep(digest: Hash32, index: nat, item: DerivedItem)
    | ExecInit(domain: Hash32, startCursor: nat, count: nat)
    | ExecStep(digest: Hash32, leaf: ExecutionItem)
    | Binding(inputs: BindingInputs)

  type Hasher = Preimage -> Hash32

  /** The idealisation under which roots bind: no two preimages collide. */
  ghost predicate Injective(h: Hasher) {
    forall p, q :: h(p) == h(q) ==> p == q
  }

  // ----- the execution stream

  function ExecFold(h: Hasher, seed: Hash32, items: seq<ExecutionItem>): Hash32
    decreases |items|
  {
    if items == [] then seed else h(ExecStep(ExecFold(h, seed, items[..|items| - 1]), items[|items| - 1]))
  }

  function StreamRoot(h: Hasher, domain: Hash32, startCursor: nat, items: seq<ExecutionItem>): Hash32 {
    ExecFold(h, h(ExecInit(domain, startCursor, |items|)), items)
  }

  method ComputeStreamRoot(h: Hasher, domain: Hash32, startCursor: nat, items: seq<ExecutionItem>)
    returns (digest: Hash32)
    ensures digest == StreamRoot(h, domain, startCursor, items)
  {
    digest := h(ExecInit(domain, startCursor, |items|));
    ghost var seed := digest;
    for i := 0 to |items|
      invariant digest == ExecFold(h, seed, items[..i])
    {
      assert items[..i + 1][..i] == items[..i];
      digest := h(ExecStep(digest, items[i]));
    }
    assert items[..|items|] == items;
  }

  lemma {:induction false} ExecFoldInjective(h: Hasher, d: Hash32, d': Hash32, c: nat, c': nat, n: nat, n': nat,
                                             a: seq<ExecutionItem>, b: seq<ExecutionItem>)
    requires Injective(h)
    requires ExecFold(h, h(ExecInit(d, c, n)), a) == ExecFold(h, h(ExecInit(d', c', n')), b)
    ensures a == b && d == d' && c == c' && n == n'
    decreases |a|
  {
    if a != [] && b != [] {
      var p := ExecStep(ExecFold(h, h(ExecInit(d, c, n)), a[..|a| - 1]), a[|a| - 1]);
      var q := ExecStep(ExecFold(h, h(ExecInit(d', c', n')), b[..|b| - 1]), b[|b| - 1]);
      assert h(p) == h(q);
      ExecFoldInjective(h, d, d', c, c', n, n', a[..|a| - 1], b[..|b| - 1]);
    }
  }

  /** A stream root fixes the domain, the start cursor and the whole stream. */
  lemma StreamRootInjective(h: Hasher, d: Hash32, d': Hash32, c: nat, c': nat, a: seq<ExecutionItem>,
                            b: seq<ExecutionItem>)
    requires Injective(h)
    ensures StreamRoot(h, d, c, a) == StreamRoot(h, d', c', b) <==> d == d' && c == c' && a == b
  {
    if StreamRoot(h, d, c, a) == StreamRoot(h, d', c', b) {
      ExecFoldInjective(h, d, d', c, c', |a|, |b|, a, b);
    }
  }

  // ----- the item accumulator

  function ItemsFold(h: Hasher, seed: Hash32, items: seq<DerivedItem>): Hash32
    decreases |items|
  {
    if items == [] then seed
    else h(ItemStep(ItemsFold(h, seed, items[..|items| - 1]), |items| - 1, items[|items| - 1]))
  }

  function ItemsRoot(h: Hasher, domain: Hash32, frameId: nat, startCursor: nat, items: seq<DerivedItem>): Hash32 {
    ItemsFold(h, h(ItemsInit(domain, frameId, startCursor, |items|)), items)
  }

  datatype Advanced = Done | NonConsecutiveIndex(expected: nat, actual: nat) | CountMismatch(expected: nat, actual: nat)

  datatype Finished = Finished(digest: Hash32) | Unfinished(expected: nat, actual: nat)

  class OrderedAccumulator {
    var nextIndex: nat
    var digest: Hash32
    const expectedCount: nat
    ghost const seed: Hash32
    ghost var items: seq<DerivedItem>

    /** The digest is that of the items taken so far, one per logical input. */
    ghost predicate Valid(h: Hasher)
      reads this
    {
      nextIndex == |items| <= expectedCount && digest == ItemsFold(h, seed, items)
    }

    constructor (h: Hasher, domain: Hash32, frameId: nat, startCursor: nat, itemCount: nat)
      ensures Valid(h) && items == [] && expectedCount == itemCount
      ensures seed == h(ItemsInit(domain, frameId, startCursor, itemCount))
    {
      var first := h(ItemsInit(domain, frameId, startCursor, itemCount));
      nextIndex, expectedCount, digest := 0, itemCount, first;
      seed, items := first, [];
    }

    method Advance(h: Hasher, logicalIndex: nat, item: DerivedItem) returns (r: Advanced)
      requires Valid(h)
      modifies this
      ensures Valid(h)
      ensures r == if logicalIndex != |old(items)| then NonConsecutiveIndex(|old(items)|, logicalIndex)
                   else if |old(items)| >= expectedCount then CountMismatch(expectedCount, |old(items)| + 1)
                   else Done
      ensures items == if r.Done? then old(items) + [item] else old(items)
    {
      if logicalIndex != nextIndex {
        return NonConsecutiveIndex(nextIndex, logicalIndex);
      }
      if nextIndex >= expectedCount {
        return CountMismatch(expectedCount, nextIndex + 1);
      }
      digest := h(ItemStep(digest, logicalIndex, item));
      nextIndex := nextIndex + 1;
      items := items + [item];
      assert items[..|items| - 1] == old(items);
      r := Done;
    }

    method Finish(h: Hasher) returns (r: Finished)
      requires Valid(h)
      ensures r == if |items| == expectedCount then Finished(ItemsFold(h, seed, items))
              else Unfinished(expectedCount, |items|)
    {
      if nextIndex != expectedCount {
        return Unfinished(expectedCount, nextIndex);
      }
      r := Finished(digest);
    }
  }

  /** Drives the accumulator; its two unwraps cannot fail. */
  method ComputeItemsRoot(h: Hasher, domain: Hash32, frameId: nat, startCursor: nat, items: seq<DerivedItem>)
    returns (root: Hash32)
    ensures root == ItemsRoot(h, domain, frameId, startCursor, items)
  {
    var accumulator := new OrderedAccumulator(h, domain, frameId, startCursor, |items|);
    for i := 0 to |items|
      invariant fresh(accumulator) && accumulator.Valid(h) && accumulator.expectedCount == |items|
      invariant accumulator.seed == h(ItemsInit(domain, frameId, startCursor, |items|))
      invariant accumulator.items == items[..i]
    {
      var r := accumulator.Advance(h, i, items[i]);
      assert r.Done?;
    }
    assert items[..|items|] == items;
    var r := accumulator.Finish(h);
    root := r.digest;
  }

  lemma {:induction false} ItemsFoldInjective(h: Hasher, p: Preimage, q: Preimage, a: seq<DerivedItem>,
                                              b: seq<DerivedItem>)
    requires Injective(h) && p.ItemsInit? && q.ItemsInit? && ItemsFold(h, h(p), a) == ItemsFold(h, h(q), b)
    ensures a == b && p == q
    decreases |a|
  {
    if a != [] && b != [] {
      var x := ItemStep(ItemsFold(h, h(p), a[..|a| - 1]), |a| - 1, a[|a| - 1]);
      var y := ItemStep(ItemsFold(h, h(q), b[..|b| - 1]), |b| - 1, b[|b| - 1]);
      assert h(x) == h(y);
      ItemsFoldInjective(h, p, q, a[..|a| - 1], b[..|b| - 1]);
    }
  }

  lemma ItemsRootInjective(h: Hasher, d: Hash32, d': Hash32, f: nat, f': nat, c: nat, c': nat, a: seq<DerivedItem>,
                           b: seq<DerivedItem>)
    requires Injective(h)
    ensures ItemsRoot(h, d, f, c, a) == ItemsRoot(h, d', f', c', b) <==> d == d' && f == f' && c == c' && a == b
  {
    if ItemsRoot(h, d, f, c, a) == ItemsRoot(h, d', f', c', b) {
      ItemsFoldInjective(h, ItemsInit(d, f, c, |a|), ItemsInit(d', f', c', |b|), a, b);
    }
  }

  /** Both roots hash the number of items, and the item root each item's index: a hash
      that shows one of these makes it the root. */
  lemma {:induction false} RootsHashCounts(h: Hasher, d: Hash32, f: nat, c: nat, a: seq<ExecutionItem>,
                                           b: seq<DerivedItem>)
    ensures (forall x, y, n :: h(ExecInit(x, y, n)) == n) && (forall x, y :: h(ExecStep(x, y)) == x) ==>
              StreamRoot(h, d, c, a) == |a|
    ensures (forall x, y, z, n :: h(ItemsInit(x, y, z, n)) == n) && (forall x, i, y :: h(ItemStep(x, i, y)) == x) ==>
              ItemsRoot(h, d, f, c, b) == |b|
    ensures (forall x, i, y :: h(ItemStep(x, i, y)) == i) && b != [] ==> ItemsRoot(h, d, f, c, b) == |b| - 1
  {
    if forall x, y :: h(ExecStep(x, y)) == x {
      ExecFoldKeeps(h, h(ExecInit(d, c, |a|)), a);
    }
    if forall x, i, y :: h(ItemStep(x, i, y)) == x {
      ItemsFoldKeeps(h, h(ItemsInit(d, f, c, |b|)), b);
    }
  }

  lemma {:induction false} ExecFoldKeeps(h: Hasher, seed: Hash32, a: seq<ExecutionItem>)
    requires forall x, y :: h(ExecStep(x, y)) == x
    ensures ExecFold(h, seed, a) == seed
    decreases |a|
  {
    if a != [] {
      ExecFoldKeeps(h, seed, a[..|a| - 1]);
    }
  }

  lemma {:induction false} ItemsFoldKeeps(h: Hasher, seed: Hash32, b: seq<DerivedItem>)
    requires forall x, i, y :: h(ItemStep(x, i, y)) == x
    ensures ItemsFold(h, seed, b) == seed
    decreases |b|
  {
    if b != [] {
      ItemsFoldKeeps(h, seed, b[..|b| - 1]);
    }
  }
}
