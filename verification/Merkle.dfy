/** The batch tree: root, paths and verification
    (crates/sequencer/src/records.rs), and the contract's in-place root
    (demo/contracts/src/PoSqHost.sol). */
module Merkle {
  import opened Wrappers
  import opened Digests
  import opened ModArith

  /** One level up: pairs are hashed, and an odd last node is paired with itself. */
  function Up(level: seq<Digest>): (next: seq<Digest>)
    ensures |next| == (|level| + 1) / 2
  {
    seq((|level| + 1) / 2, i requires 0 <= i < (|level| + 1) / 2 => Pair(level, i))
  }

  function Pair(level: seq<Digest>, i: nat): Digest
    requires 2 * i < |level|
  {
    Parent(level[2 * i], level[if 2 * i + 1 < |level| then 2 * i + 1 else 2 * i])
  }

  function TopOf(level: seq<Digest>): Digest
    requires |level| > 0
    decreases |level|
  {
    if |level| == 1 then level[0] else TopOf(Up(level))
  }

  function Root(leaves: seq<Digest>): Digest {
    if leaves == [] then EmptyBatch else TopOf(leaves)
  }

  function Sibling(level: seq<Digest>, idx: nat): Digest
    requires idx < |level|
  {
    if idx % 2 == 0 then (if idx + 1 < |level| then level[idx + 1] else level[idx]) else level[idx - 1]
  }

  function PathFrom(level: seq<Digest>, idx: nat): seq<Digest>
    requires idx < |level|
    decreases |level|
  {
    if |level| <= 1 then [] else [Sibling(level, idx)] + PathFrom(Up(level), idx / 2)
  }

  function Climb(acc: Digest, idx: nat, path: seq<Digest>): Digest
    decreases |path|
  {
    if path == [] then acc
    else Climb(if idx % 2 == 0 then Parent(acc, path[0]) else Parent(path[0], acc), idx / 2, path[1..])
  }

  // ----- the loops

  method MerkleRoot(leaves: seq<Digest>) returns (root: Digest)
    ensures root == Root(leaves)
  {
    if leaves == [] {
      return EmptyBatch;
    }
    var level := leaves;
    while |level| > 1
      invariant |level| > 0 && TopOf(level) == TopOf(leaves)
      decreases |level|
    {
      level := NextLevel(level);
    }
    root := level[0];
  }

  method NextLevel(level: seq<Digest>) returns (next: seq<Digest>)
    ensures next == Up(level)
  {
    next := [];
    var at := 0;
    while at < |level|
      invariant at == 2 * |next| && |next| <= (|level| + 1) / 2
      invariant next == Up(level)[..|next|]
    {
      var right := if at + 1 < |level| then level[at + 1] else level[at];
      next := next + [Parent(level[at], right)];
      at := at + 2;
    }
  }

  method MerklePath(leaves: seq<Digest>, index: nat) returns (path: Option<seq<Digest>>)
    ensures path == if index < |leaves| then Some(PathFrom(leaves, index)) else None
  {
    if index >= |leaves| {
      return None;
    }
    var level: seq<Digest>, idx: nat, siblings: seq<Digest> := leaves, index, [];
    assert siblings + PathFrom(leaves, index) == PathFrom(leaves, index);
    while |level| > 1
      invariant idx < |level| && siblings + PathFrom(level, idx) == PathFrom(leaves, index)
      decreases |level|
    {
      var sibling := if idx % 2 == 0 then (if idx + 1 < |level| then level[idx + 1] else level[idx])
        else level[idx - 1];
      assert siblings + ([sibling] + PathFrom(Up(level), idx / 2))
             == siblings + [sibling] + PathFrom(Up(level), idx / 2);
      siblings := siblings + [sibling];
      level := NextLevel(level);
      idx := idx / 2;
    }
    assert siblings + [] == siblings;
    path := Some(siblings);
  }

  method MerkleVerify(root: Digest, leaf: Digest, index: nat, path: seq<Digest>) returns (ok: bool)
    ensures ok <==> Climb(leaf, index, path) == root
  {
    var acc, idx := leaf, index;
    for k := 0 to |path|
      invariant Climb(acc, idx, path[k..]) == Climb(leaf, index, path)
    {
      acc := if idx % 2 == 0 then Parent(acc, path[k]) else Parent(path[k], acc);
      idx := idx / 2;
    }
    ok := acc == root;
  }

  /** The contract overwrites its array level by level and gets the same root. */
  method HostMerkleRoot(leaves: array<Digest>) returns (root: Digest)
    modifies leaves
    ensures root == Root(old(leaves[..]))
  {
    if leaves.Length == 0 {
      return EmptyBatch;
    }
    var n := leaves.Length;
    assert leaves[..n] == leaves[..];
    while n > 1
      invariant 0 < n <= leaves.Length
      invariant TopOf(leaves[..n]) == TopOf(old(leaves[..]))
    {
      var m := (n + 1) / 2;
      ghost var level := leaves[..n];
      for i := 0 to m
        invariant forall k | 0 <= k < i :: leaves[k] == Up(level)[k]
        invariant forall k | 2 * i <= k < n :: leaves[k] == level[k]
      {
        var l := leaves[2 * i];
        var r := if 2 * i + 1 < n then leaves[2 * i + 1] else l;
        leaves[i] := Parent(l, r);
      }
      n := m;
      assert leaves[..m] == Up(level);
    }
    root := leaves[0];
  }

  // ----- completeness

  /** Every generated path verifies. */
  lemma {:induction false} PathVerifies(leaves: seq<Digest>, idx: nat)
    requires idx < |leaves|
    ensures Climb(leaves[idx], idx, PathFrom(leaves, idx)) == Root(leaves)
    decreases |leaves|
  {
    if |leaves| > 1 {
      var sibling := Sibling(leaves, idx);
      var up := Up(leaves);
      assert up[idx / 2] == if idx % 2 == 0 then Parent(leaves[idx], sibling) else Parent(sibling, leaves[idx]);
      PathVerifies(up, idx / 2);
      assert PathFrom(leaves, idx)[1..] == PathFrom(up, idx / 2);
    }
  }

  // ----- what a root fixes

  /** The bottom row under a node, left to right. */
  function Row(d: Digest): seq<Digest> {
    if d.Parent? then Row(d.left) + Row(d.right) else [d]
  }

  /** A full binary tree of the given height over non-node digests. */
  predicate Full(d: Digest, height: nat) {
    if height == 0 then !d.Parent? else d.Parent? && Full(d.left, height - 1) && Full(d.right, height - 1)
  }

  lemma {:induction false} FullRowLength(d: Digest, height: nat)
    requires Full(d, height)
    ensures |Row(d)| == Pow(2, height)
  {
    if height > 0 {
      FullRowLength(d.left, height - 1);
      FullRowLength(d.right, height - 1);
    }
  }

  /** A full tree is its bottom row. */
  lemma {:induction false} FullTreeIsItsRow(d: Digest, e: Digest, height: nat)
    requires Full(d, height) && Full(e, height) && Row(d) == Row(e)
    ensures d == e
  {
    if height > 0 {
      FullRowLength(d.left, height - 1);
      FullRowLength(e.left, height - 1);
      assert Row(d.left) == Row(d)[..|Row(d.left)|] && Row(e.left) == Row(e)[..|Row(e.left)|];
      assert Row(d.right) == Row(d)[|Row(d.left)|..] && Row(e.right) == Row(e)[|Row(e.left)|..];
      FullTreeIsItsRow(d.left, e.left, height - 1);
      FullTreeIsItsRow(d.right, e.right, height - 1);
    }
  }

  // ----- padded leaf lists

  /** The same pairing on rows of leaves: neighbours are joined, and an odd last
      row is repeated. */
  function JoinRows(rows: seq<seq<Digest>>): (next: seq<seq<Digest>>)
    ensures |next| == (|rows| + 1) / 2
  {
    seq((|rows| + 1) / 2, i requires 0 <= i < (|rows| + 1) / 2 =>
      rows[2 * i] + rows[if 2 * i + 1 < |rows| then 2 * i + 1 else 2 * i])
  }

  function PadRows(rows: seq<seq<Digest>>): seq<Digest>
    requires |rows| > 0
    decreases |rows|
  {
    if |rows| == 1 then rows[0] else PadRows(JoinRows(rows))
  }

  function Rows(level: seq<Digest>): (rows: seq<seq<Digest>>)
    ensures |rows| == |level|
  {
    seq(|level|, i requires 0 <= i < |level| => Row(level[i]))
  }

  /** The leaf list with its odd tails repeated up to a power of two. */
  function Padded(leaves: seq<Digest>): seq<Digest>
    requires |leaves| > 0
  {
    PadRows(seq(|leaves|, i requires 0 <= i < |leaves| => [leaves[i]]))
  }

  /** A leaf row holds entry digests, never tree nodes. */
  ghost predicate AllLeaves(s: seq<Digest>) {
    forall i | 0 <= i < |s| :: !s[i].Parent?
  }

  lemma {:induction false} TopRow(level: seq<Digest>)
    requires |level| > 0
    ensures Row(TopOf(level)) == PadRows(Rows(level))
    decreases |level|
  {
    if |level| > 1 {
      TopRow(Up(level));
      assert Rows(Up(level)) == JoinRows(Rows(level));
    }
  }

  lemma RootRow(leaves: seq<Digest>)
    requires |leaves| > 0 && AllLeaves(leaves)
    ensures Row(Root(leaves)) == Padded(leaves)
  {
    TopRow(leaves);
    assert Rows(leaves) == seq(|leaves|, i requires 0 <= i < |leaves| => [leaves[i]]);
  }

  lemma {:induction false} TopFull(level: seq<Digest>, height: nat) returns (h: nat)
    requires |level| > 0 && forall i | 0 <= i < |level| :: Full(level[i], height)
    ensures Full(TopOf(level), h)
    decreases |level|
  {
    h := height;
    if |level| > 1 {
      forall i | 0 <= i < |Up(level)|
        ensures Full(Up(level)[i], height + 1)
      {
        assert Up(level)[i] == Pair(level, i);
      }
      h := TopFull(Up(level), height + 1);
    }
  }

  /** All rows, end to end. */
  function Flat(rows: seq<seq<Digest>>): seq<Digest> {
    if rows == [] then [] else rows[0] + Flat(rows[1..])
  }

  lemma {:induction false} FlatConcat(a: seq<seq<Digest>>, b: seq<seq<Digest>>)
    ensures Flat(a + b) == Flat(a) + Flat(b)
  {
    if a == [] {
      assert a + b == b;
    } else {
      FlatConcat(a[1..], b);
      assert (a + b)[1..] == a[1..] + b && (a + b)[0] == a[0];
    }
  }

  lemma {:induction false} JoinKeepsPrefix(rows: seq<seq<Digest>>)
    ensures Flat(rows) <= Flat(JoinRows(rows))
    decreases |rows|
  {
    if |rows| >= 2 {
      JoinKeepsPrefix(rows[2..]);
      assert JoinRows(rows)[1..] == JoinRows(rows[2..]);
      assert Flat(rows) == rows[0] + (rows[1] + Flat(rows[2..])) by {
        assert rows[1..][0] == rows[1] && rows[1..][1..] == rows[2..];
      }
      assert Flat(JoinRows(rows)) == (rows[0] + rows[1]) + Flat(JoinRows(rows[2..]));
      assert Flat(rows) == (rows[0] + rows[1]) + Flat(rows[2..]);
    } else if |rows| == 1 {
      assert rows[1..] == [] && JoinRows(rows)[1..] == [];
    }
  }

  lemma {:induction false} PadKeepsPrefix(rows: seq<seq<Digest>>)
    requires |rows| > 0
    ensures Flat(rows) <= PadRows(rows)
    decreases |rows|
  {
    if |rows| == 1 {
      assert rows[1..] == [];
    } else {
      JoinKeepsPrefix(rows);
      PadKeepsPrefix(JoinRows(rows));
    }
  }

  lemma {:induction false} PadAddsNothing(rows: seq<seq<Digest>>, x: Digest)
    requires |rows| > 0 && x in PadRows(rows)
    ensures exists i | 0 <= i < |rows| :: x in rows[i]
    decreases |rows|
  {
    if |rows| > 1 {
      PadAddsNothing(JoinRows(rows), x);
      var i :| 0 <= i < |JoinRows(rows)| && x in JoinRows(rows)[i];
      var r := if 2 * i + 1 < |rows| then 2 * i + 1 else 2 * i;
      assert JoinRows(rows)[i] == rows[2 * i] + rows[r];
      assert x in rows[2 * i] || x in rows[r];
    }
  }

  lemma {:induction false} FlatSingletons(s: seq<Digest>)
    ensures Flat(seq(|s|, i requires 0 <= i < |s| => [s[i]])) == s
  {
    var rows := seq(|s|, i requires 0 <= i < |s| => [s[i]]);
    if s != [] {
      FlatSingletons(s[1..]);
      assert rows[1..] == seq(|s[1..]|, i requires 0 <= i < |s[1..]| => [s[1..][i]]);
    }
  }

  /** Padding keeps the list as a prefix and adds no new leaf. */
  lemma PaddedExtends(leaves: seq<Digest>)
    requires |leaves| > 0
    ensures leaves <= Padded(leaves) && forall x :: x in Padded(leaves) <==> x in leaves
  {
    var rows := seq(|leaves|, i requires 0 <= i < |leaves| => [leaves[i]]);
    PadKeepsPrefix(rows);
    FlatSingletons(leaves);
    forall x | x in Padded(leaves)
      ensures x in leaves
    {
      PadAddsNothing(rows, x);
      var i :| 0 <= i < |rows| && x in rows[i];
      assert x == leaves[i];
    }
  }

  /** The root fixes the padded leaf list, and nothing more. */
  lemma RootFixesPaddedList(s: seq<Digest>, t: seq<Digest>)
    requires |s| > 0 && |t| > 0 && AllLeaves(s) && AllLeaves(t)
    ensures Root(s) == Root(t) <==> Padded(s) == Padded(t)
  {
    RootRow(s);
    RootRow(t);
    if Padded(s) == Padded(t) {
      var h := TopFull(s, 0);
      var k := TopFull(t, 0);
      FullRowLength(Root(s), h);
      FullRowLength(Root(t), k);
      SameHeight(h, k);
      FullTreeIsItsRow(Root(s), Root(t), h);
    }
  }

  lemma SameHeight(h: nat, k: nat)
    requires Pow(2, h) == Pow(2, k)
    ensures h == k
  {
    if h != k {
      PowStrictlyMonotone(2, if h < k then h else k, if h < k then k else h);
    }
  }

  /** Two batches with one root hold the same entries; at equal length they are
      the same batch. The empty batch has a root of its own. */
  lemma SameRootSameEntries(s: seq<Digest>, t: seq<Digest>)
    requires AllLeaves(s) && AllLeaves(t) && EmptyBatch !in s && EmptyBatch !in t && Root(s) == Root(t)
    ensures forall x :: x in s <==> x in t
    ensures |s| == |t| ==> s == t
  {
    if s != [] {
      PaddedExtends(s);
      RootRow(s);
      assert s[0] in s;
    }
    if t != [] {
      PaddedExtends(t);
      RootRow(t);
      assert t[0] in t;
    }
    if s != [] && t != [] {
      RootFixesPaddedList(s, t);
    }
  }

  // ----- soundness of verification

  lemma {:induction false} ClimbAppend(acc: Digest, idx: nat, path: seq<Digest>, last: Digest)
    ensures Climb(acc, idx, path + [last])
         == var below := Climb(acc, idx, path);
            if Shr(|path|, idx) % 2 == 0 then Parent(below, last) else Parent(last, below)
    decreases |path|
  {
    if path == [] {
      assert [last][1..] == [] && idx / 1 == idx;
    } else {
      var up := if idx % 2 == 0 then Parent(acc, path[0]) else Parent(path[0], acc);
      ClimbAppend(up, idx / 2, path[1..], last);
      assert (path + [last])[1..] == path[1..] + [last] && (path + [last])[0] == path[0];
      ShrNext(|path| - 1, idx);
    }
  }

  /** A path that climbs to a full tree has the tree's height, and the leaf stands
      at the place the index names. */
  lemma {:induction false} ClimbFindsPlace(d: Digest, height: nat, leaf: Digest, idx: nat, path: seq<Digest>)
    requires Full(d, height) && !leaf.Parent? && Climb(leaf, idx, path) == d
    ensures |path| == height && |Row(d)| == Pow(2, height) > 0 && Row(d)[idx % Pow(2, height)] == leaf
    decreases |path|
  {
    FullRowLength(d, height);
    PowPositive(2, height);
    if path == [] {
      assert idx % 1 == 0;
    } else {
      var front, last := path[..|path| - 1], path[|path| - 1];
      assert path == front + [last];
      ClimbAppend(leaf, idx, front, last);
      var below := Climb(leaf, idx, front);
      FullRowLength(d.left, height - 1);
      ClimbFindsPlace(below, height - 1, leaf, idx, front);
      HighBit(idx, height - 1);
    }
  }

  /** The residue modulo 2^(k+1) is that modulo 2^k plus the bit above it. */
  lemma HighBit(idx: nat, k: nat)
    ensures Pow(2, k) > 0 && Pow(2, k + 1) > 0
    ensures idx % Pow(2, k + 1) == idx % Pow(2, k) + (if Shr(k, idx) % 2 == 0 then 0 else Pow(2, k))
  {
    PowPositive(2, k);
    HighResidue(idx, Pow(2, k));
  }

  lemma HighResidue(idx: nat, p: nat)
    requires p > 0
    ensures idx % (2 * p) == idx % p + (if idx / p % 2 == 0 then 0 else p)
  {
    var q, r := idx / p, idx % p;
    var h := q / 2;
    var b := q - 2 * h;
    assert idx == q * p + r;
    Distribute(2 * h, b, p);
    assert 2 * h * p == h * (2 * p);
    assert b == 0 || b == 1;
    DivModUnique(idx, 2 * p, h, b * p + r);
  }

  /** Soundness against any path and index: a leaf verifies at a real position
      exactly when it is the entry at that position. */
  lemma VerifiesIffAtPosition(leaves: seq<Digest>, leaf: Digest, idx: nat)
    requires idx < |leaves| && AllLeaves(leaves) && !leaf.Parent?
    ensures (exists path :: Climb(leaf, idx, path) == Root(leaves)) <==> leaf == leaves[idx]
  {
    PathVerifies(leaves, idx);
    var h := TopFull(leaves, 0);
    RootRow(leaves);
    PaddedExtends(leaves);
    FullRowLength(Root(leaves), h);
    PowPositive(2, h);
    ModSmall(idx, Pow(2, h));
    forall path | Climb(leaf, idx, path) == Root(leaves)
      ensures leaf == leaves[idx]
    {
      ClimbFindsPlace(Root(leaves), h, leaf, idx, path);
    }
  }

  /** Whatever index and path a challenger picks, a verifying leaf is an entry. */
  lemma VerifyingLeafIsEntry(leaves: seq<Digest>, leaf: Digest, idx: nat, path: seq<Digest>)
    requires AllLeaves(leaves) && leaf.Leaf? && Climb(leaf, idx, path) == Root(leaves)
    ensures leaf in leaves
  {
    if leaves == [] {
      ClimbFindsPlace(EmptyBatch, 0, leaf, idx, path);
    } else {
      var h := TopFull(leaves, 0);
      ClimbFindsPlace(Root(leaves), h, leaf, idx, path);
      RootRow(leaves);
      PaddedExtends(leaves);
    }
  }
}
