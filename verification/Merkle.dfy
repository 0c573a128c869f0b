/**
 `computeMerkleRootForRange` (apps/worker-anchor/src/index.ts): the layer-by-layer
 Merkle root of a range's body hashes, an odd layer repeating its last node.

 `h` stands for SHA-256 over two concatenated digests. Nothing is assumed of it
 except, where a lemma says so, that it does not collide on the pairs of digests
 that are actually hashed there.
 */
module Merkle {

  /** No two of these pairs of digests have the same hash. */
  ghost predicate CollisionFreeOn<D(!new)>(h: (D, D) -> D, pairs: set<(D, D)>) {
    forall p, q {:trigger NoCollision(h, p, q)} :: p in pairs && q in pairs ==> NoCollision(h, p, q)
  }

  ghost predicate NoCollision<D>(h: (D, D) -> D, p: (D, D), q: (D, D)) {
    h(p.0, p.1) == h(q.0, q.1) ==> p == q
  }

  function Pow2(k: nat): nat {
    if k == 0 then 1 else 2 * Pow2(k - 1)
  }

  function CeilLog2(n: nat): nat
    requires n >= 1
  {
    if n == 1 then 0 else 1 + CeilLog2((n + 1) / 2)
  }

  lemma {:induction false} CeilLog2Bounds(n: nat)
    requires n >= 1
    ensures n <= Pow2(CeilLog2(n))
    ensures n > 1 ==> Pow2(CeilLog2(n) - 1) < n
  {
    if n > 1 { CeilLog2Bounds((n + 1) / 2); }
  }

  lemma {:induction false} CeilLog2AtMost(n: nat, k: nat)
    requires 1 <= n <= Pow2(k)
    ensures CeilLog2(n) <= k
  {
    if n > 1 {
      CeilLog2AtMost((n + 1) / 2, k - 1);
    }
  }

  // --------------------------------------------------- the tree it stands for

  /** The root of the tree of height k over the leaves: the left half is full, and
      a tree that fits in its left half is paired with itself. */
  function Tree<D>(h: (D, D) -> D, leaves: seq<D>, k: nat): D
    requires 1 <= |leaves| <= Pow2(k)
  {
    if k == 0 then leaves[0]
    else
      var half := Pow2(k - 1);
      if |leaves| <= half then
        var left := Tree(h, leaves, k - 1);
        h(left, left)
      else
        h(Tree(h, leaves[..half], k - 1), Tree(h, leaves[half..], k - 1))
  }

  function Root<D>(h: (D, D) -> D, emptyRoot: D, leaves: seq<D>): D {
    if leaves == [] then emptyRoot
    else
      CeilLog2Bounds(|leaves|);
      Tree(h, leaves, CeilLog2(|leaves|))
  }

  // ------------------------------------------------------------ layer by layer

  /** The layer above: neighbours are paired, a last odd node with itself. */
  function Next<D>(h: (D, D) -> D, layer: seq<D>): (next: seq<D>)
    ensures |next| == (|layer| + 1) / 2
  {
    seq((|layer| + 1) / 2, j requires 0 <= j < (|layer| + 1) / 2 =>
      h(layer[2 * j], if 2 * j + 1 < |layer| then layer[2 * j + 1] else layer[2 * j]))
  }

  lemma NextOfHalves<D>(h: (D, D) -> D, leaves: seq<D>, quarter: nat)
    requires 2 * quarter <= |leaves|
    ensures Next(h, leaves)[..quarter] == Next(h, leaves[..2 * quarter])
    ensures Next(h, leaves)[quarter..] == Next(h, leaves[2 * quarter..])
  {
  }

  lemma TreeOfOneOrTwo<D>(h: (D, D) -> D, leaves: seq<D>)
    requires 1 <= |leaves| <= 2
    ensures Pow2(1) == 2 && Tree(h, leaves, 1) == Next(h, leaves)[0]
  {
  }

  /** The definition of `Tree` with its bounds spelled out. */
  lemma TreeSplits<D>(h: (D, D) -> D, leaves: seq<D>, k: nat, half: nat)
    requires k > 0 && half == Pow2(k - 1) && 1 <= |leaves| <= 2 * half
    ensures Pow2(k) == 2 * half
    ensures |leaves| <= half ==> Tree(h, leaves, k) == h(Tree(h, leaves, k - 1), Tree(h, leaves, k - 1))
    ensures |leaves| > half ==> Tree(h, leaves, k) == h(Tree(h, leaves[..half], k - 1), Tree(h, leaves[half..], k - 1))
  {
  }

  /** Climbing one layer leaves the root where it was. */
  lemma {:induction false} TreeOfNext<D>(h: (D, D) -> D, leaves: seq<D>, k: nat, half: nat)
    requires k > 0 && half == Pow2(k - 1) && 1 <= |leaves| <= 2 * half
    ensures Pow2(k) == 2 * half && |Next(h, leaves)| <= half
    ensures Tree(h, leaves, k) == Tree(h, Next(h, leaves), k - 1)
    decreases k
  {
    if k == 1 {
      TreeOfOneOrTwo(h, leaves);
    } else {
      var quarter := Pow2(k - 2);
      assert half == 2 * quarter;
      TreeSplits(h, leaves, k, half);
      TreeSplits(h, Next(h, leaves), k - 1, quarter);
      if |leaves| <= half {
        TreeOfNext(h, leaves, k - 1, quarter);
      } else {
        NextOfHalves(h, leaves, quarter);
        TreeOfNext(h, leaves[..half], k - 1, quarter);
        TreeOfNext(h, leaves[half..], k - 1, quarter);
      }
    }
  }

  lemma RootOfNext<D>(h: (D, D) -> D, emptyRoot: D, leaves: seq<D>)
    requires |leaves| > 1
    ensures Root(h, emptyRoot, Next(h, leaves)) == Root(h, emptyRoot, leaves)
  {
    CeilLog2Bounds(|leaves|);
    var k := CeilLog2(|leaves|);
    TreeOfNext(h, leaves, k, Pow2(k - 1));
  }

  /** The loop of `computeMerkleRootForRange` computes the root of that tree. */
  method ComputeRoot<D>(h: (D, D) -> D, emptyRoot: D, rows: seq<D>) returns (root: D)
    ensures root == Root(h, emptyRoot, rows)
  {
    if |rows| == 0 {
      return emptyRoot;
    }
    var layer := rows;
    while |layer| > 1
      invariant |layer| >= 1
      invariant Root(h, emptyRoot, layer) == Root(h, emptyRoot, rows)
      decreases |layer|
    {
      RootOfNext(h, emptyRoot, layer);
      layer := PairUp(h, layer);
    }
    return layer[0];
  }

  /** The inner loop: one layer up. */
  method PairUp<D>(h: (D, D) -> D, layer: seq<D>) returns (next: seq<D>)
    ensures next == Next(h, layer)
  {
    next := [];
    var i := 0;
    while i < |layer|
      invariant 0 <= i <= |layer| + 1 && i == 2 * |next| && |next| <= |Next(h, layer)|
      invariant next == Next(h, layer)[..|next|]
    {
      ParentIsAbove(h, layer, i);
      var left := layer[i];
      var right := if i + 1 < |layer| then layer[i + 1] else left;
      next := next + [h(left, right)];
      i := i + 2;
    }
  }

  lemma RootOfTwo<D>(h: (D, D) -> D, emptyRoot: D, a: D, b: D)
    ensures Root(h, emptyRoot, [a, b]) == h(a, b)
  {
    RootOfNext(h, emptyRoot, [a, b]);
    assert Next(h, [a, b]) == [h(a, b)];
  }

  /** The roots of up to five rows, written out: the left digest is hashed first, and an odd
      one at the end of a layer with itself. */
  lemma SmallRoots<D>(h: (D, D) -> D, emptyRoot: D, a: D, b: D, c: D, d: D, e: D)
    ensures Root(h, emptyRoot, []) == emptyRoot && Root(h, emptyRoot, [a]) == a
    ensures Root(h, emptyRoot, [a, b]) == h(a, b)
    ensures Root(h, emptyRoot, [a, b, c]) == h(h(a, b), h(c, c))
    ensures Root(h, emptyRoot, [a, b, c, d]) == h(h(a, b), h(c, d))
    ensures Root(h, emptyRoot, [a, b, c, d, e]) == h(h(h(a, b), h(c, d)), h(h(e, e), h(e, e)))
  {
    var ab, cc, cd, ee := h(a, b), h(c, c), h(c, d), h(e, e);
    RootOfTwo(h, emptyRoot, a, b);
    RootOfNext(h, emptyRoot, [a, b, c]);
    assert Next(h, [a, b, c]) == [ab, cc];
    RootOfTwo(h, emptyRoot, ab, cc);
    RootOfNext(h, emptyRoot, [a, b, c, d]);
    assert Next(h, [a, b, c, d]) == [ab, cd];
    RootOfTwo(h, emptyRoot, ab, cd);
    RootOfNext(h, emptyRoot, [a, b, c, d, e]);
    assert Next(h, [a, b, c, d, e]) == [ab, cd, ee];
    RootOfNext(h, emptyRoot, [ab, cd, ee]);
    assert Next(h, [ab, cd, ee]) == [h(ab, cd), h(ee, ee)];
    RootOfTwo(h, emptyRoot, h(ab, cd), h(ee, ee));
  }

  // --------------------------------------------------------- inclusion proofs

  function Sibling<D>(leaves: seq<D>, i: nat): D
    requires i < |leaves|
  {
    if i % 2 == 1 then leaves[i - 1] else if i + 1 < |leaves| then leaves[i + 1] else leaves[i]
  }

  function Parent<D>(h: (D, D) -> D, digest: D, i: nat, sibling: D): D {
    if i % 2 == 1 then h(sibling, digest) else h(digest, sibling)
  }

  /** The two digests `Parent` hashes. */
  function ParentPair<D>(digest: D, i: nat, sibling: D): (D, D) {
    if i % 2 == 1 then (sibling, digest) else (digest, sibling)
  }

  lemma ParentInjective<D(!new)>(h: (D, D) -> D, pairs: set<(D, D)>, d: D, e: D, i: nat, s: D, t: D)
    requires CollisionFreeOn(h, pairs) && ParentPair(d, i, s) in pairs && ParentPair(e, i, t) in pairs
    requires Parent(h, d, i, s) == Parent(h, e, i, t)
    ensures d == e && s == t
  {
    assert NoCollision(h, ParentPair(d, i, s), ParentPair(e, i, t));
  }

  lemma ParentIsAbove<D>(h: (D, D) -> D, leaves: seq<D>, i: nat)
    requires i < |leaves|
    ensures i / 2 < |Next(h, leaves)|
    ensures Next(h, leaves)[i / 2] == Parent(h, leaves[i], i, Sibling(leaves, i))
  {
  }

  /** The pairs hashed to get one layer up. */
  ghost function PairsOf<D>(layer: seq<D>): set<(D, D)> {
    set i | 0 <= i < |layer| :: ParentPair(layer[i], i, Sibling(layer, i))
  }

  /** Every pair hashed on the way to the root. */
  ghost function HashedPairs<D>(h: (D, D) -> D, leaves: seq<D>): set<(D, D)>
    decreases |leaves|
  {
    if |leaves| <= 1 then {} else PairsOf(leaves) + HashedPairs(h, Next(h, leaves))
  }

  /** Every pair hashed in folding a proof. */
  ghost function ClimbedPairs<D>(h: (D, D) -> D, digest: D, i: nat, proof: seq<D>): set<(D, D)> {
    if proof == [] then {}
    else {ParentPair(digest, i, proof[0])} + ClimbedPairs(h, Parent(h, digest, i, proof[0]), i / 2, proof[1..])
  }

  /** The siblings met on the way from leaf i to the root. */
  function InclusionProof<D>(h: (D, D) -> D, leaves: seq<D>, i: nat): seq<D>
    requires i < |leaves|
    decreases |leaves|
  {
    if |leaves| == 1 then []
    else [Sibling(leaves, i)] + InclusionProof(h, Next(h, leaves), i / 2)
  }

  /** Fold a proof from leaf i upwards. */
  function Climb<D>(h: (D, D) -> D, digest: D, i: nat, proof: seq<D>): D {
    if proof == [] then digest
    else Climb(h, Parent(h, digest, i, proof[0]), i / 2, proof[1..])
  }

  /** Every leaf has a proof of logarithmic length that reaches the root. */
  lemma {:induction false} InclusionProofVerifies<D>(h: (D, D) -> D, emptyRoot: D, leaves: seq<D>, i: nat)
    requires i < |leaves|
    ensures |InclusionProof(h, leaves, i)| == CeilLog2(|leaves|)
    ensures Climb(h, leaves[i], i, InclusionProof(h, leaves, i)) == Root(h, emptyRoot, leaves)
    decreases |leaves|
  {
    if |leaves| > 1 {
      ParentIsAbove(h, leaves, i);
      InclusionProofVerifies(h, emptyRoot, Next(h, leaves), i / 2);
      RootOfNext(h, emptyRoot, leaves);
      var proof := InclusionProof(h, leaves, i);
      assert proof[1..] == InclusionProof(h, Next(h, leaves), i / 2);
    }
  }

  lemma FewerPairs<D(!new)>(h: (D, D) -> D, some: set<(D, D)>, all: set<(D, D)>)
    requires some <= all && CollisionFreeOn(h, all)
    ensures CollisionFreeOn(h, some)
  {
  }

  /** Conversely, nothing but leaf i passes at position i, unless two of the pairs hashed
      in the tree and in the check collide. */
  lemma {:induction false} InclusionProofSound<D(!new)>(h: (D, D) -> D, emptyRoot: D, leaves: seq<D>, i: nat,
                                                       digest: D, proof: seq<D>)
    requires CollisionFreeOn(h, HashedPairs(h, leaves) + ClimbedPairs(h, digest, i, proof))
    requires i < |leaves| && |proof| == CeilLog2(|leaves|)
    requires Climb(h, digest, i, proof) == Root(h, emptyRoot, leaves)
    ensures digest == leaves[i]
    ensures proof == InclusionProof(h, leaves, i)
    decreases |leaves|
  {
    if |leaves| > 1 {
      var pairs := CheckClimbs(h, emptyRoot, leaves, i, digest, proof);
      InclusionProofSound(h, emptyRoot, Next(h, leaves), i / 2, Parent(h, digest, i, proof[0]), proof[1..]);
      StepSound(h, pairs, leaves, i, digest, proof[0]);
      ProofUnfolds(h, leaves, i, proof);
    }
  }

  /** A check that passes goes on to pass one layer up. */
  lemma CheckClimbs<D(!new)>(h: (D, D) -> D, emptyRoot: D, leaves: seq<D>, i: nat, digest: D, proof: seq<D>)
    returns (pairs: set<(D, D)>)
    requires CollisionFreeOn(h, HashedPairs(h, leaves) + ClimbedPairs(h, digest, i, proof))
    requires |leaves| > 1 && i < |leaves| && |proof| == CeilLog2(|leaves|)
    requires Climb(h, digest, i, proof) == Root(h, emptyRoot, leaves)
    ensures var parent, next, rest := Parent(h, digest, i, proof[0]), Next(h, leaves), proof[1..];
      && CollisionFreeOn(h, HashedPairs(h, next) + ClimbedPairs(h, parent, i / 2, rest))
      && i / 2 < |next| < |leaves| && |rest| == CeilLog2(|next|)
      && Climb(h, parent, i / 2, rest) == Root(h, emptyRoot, next)
    ensures CollisionFreeOn(h, pairs) && ParentPair(digest, i, proof[0]) in pairs && PairsOf(leaves) <= pairs
  {
    RootOfNext(h, emptyRoot, leaves);
    pairs := HashedPairs(h, leaves) + ClimbedPairs(h, digest, i, proof);
    FewerPairs(h, HashedPairs(h, Next(h, leaves)) + ClimbedPairs(h, Parent(h, digest, i, proof[0]), i / 2, proof[1..]),
               pairs);
  }

  /** One step of a sound check. */
  lemma StepSound<D(!new)>(h: (D, D) -> D, pairs: set<(D, D)>, leaves: seq<D>, i: nat, digest: D, sibling: D)
    requires CollisionFreeOn(h, pairs) && ParentPair(digest, i, sibling) in pairs && PairsOf(leaves) <= pairs
    requires i < |leaves| && Parent(h, digest, i, sibling) == Next(h, leaves)[i / 2]
    ensures digest == leaves[i] && sibling == Sibling(leaves, i)
  {
    ParentIsAbove(h, leaves, i);
    assert ParentPair(leaves[i], i, Sibling(leaves, i)) in PairsOf(leaves);
    ParentInjective(h, pairs, digest, leaves[i], i, sibling, Sibling(leaves, i));
  }

  lemma ProofUnfolds<D>(h: (D, D) -> D, leaves: seq<D>, i: nat, proof: seq<D>)
    requires |leaves| > 1 && i < |leaves| && proof != [] && proof[0] == Sibling(leaves, i)
    requires proof[1..] == InclusionProof(h, Next(h, leaves), i / 2)
    ensures proof == InclusionProof(h, leaves, i)
  {
    FirstAndRest(proof);
  }

  lemma FirstAndRest<D>(s: seq<D>)
    requires s != []
    ensures s == [s[0]] + s[1..]
  {
  }

  // --------------------------------------------------------------- collisions

  lemma {:induction false} NextInjective<D(!new)>(h: (D, D) -> D, a: seq<D>, b: seq<D>)
    requires CollisionFreeOn(h, PairsOf(a) + PairsOf(b)) && |a| == |b| && Next(h, a) == Next(h, b)
    ensures a == b
  {
    forall i | 0 <= i < |a| ensures a[i] == b[i] {
      ParentIsAbove(h, a, i);
      ParentIsAbove(h, b, i);
      assert ParentPair(a[i], i, Sibling(a, i)) in PairsOf(a) && ParentPair(b[i], i, Sibling(b, i)) in PairsOf(b);
      ParentInjective(h, PairsOf(a) + PairsOf(b), a[i], b[i], i, Sibling(a, i), Sibling(b, i));
    }
  }

  /** Ranges of the same length with the same root hold the same leaves, unless two of the
      pairs hashed for the two roots collide. */
  lemma {:induction false} RootInjective<D(!new)>(h: (D, D) -> D, emptyRoot: D, a: seq<D>, b: seq<D>)
    requires CollisionFreeOn(h, HashedPairs(h, a) + HashedPairs(h, b)) && |a| == |b|
    requires Root(h, emptyRoot, a) == Root(h, emptyRoot, b)
    ensures a == b
    decreases |a|
  {
    if |a| > 1 {
      var pairs := HashedPairs(h, a) + HashedPairs(h, b);
      RootOfNext(h, emptyRoot, a);
      RootOfNext(h, emptyRoot, b);
      FewerPairs(h, HashedPairs(h, Next(h, a)) + HashedPairs(h, Next(h, b)), pairs);
      RootInjective(h, emptyRoot, Next(h, a), Next(h, b));
      FewerPairs(h, PairsOf(a) + PairsOf(b), pairs);
      NextInjective(h, a, b);
    }
  }

  lemma RootOfOne<D>(h: (D, D) -> D, emptyRoot: D, leaves: seq<D>)
    requires |leaves| == 1
    ensures Root(h, emptyRoot, leaves) == leaves[0]
  {
  }

  /** A root over more than one leaf is the hash of one of those pairs. */
  lemma {:induction false} RootIsANode<D>(h: (D, D) -> D, emptyRoot: D, leaves: seq<D>) returns (p: (D, D))
    requires |leaves| > 1
    ensures p in HashedPairs(h, leaves) && Root(h, emptyRoot, leaves) == h(p.0, p.1)
    decreases |leaves|
  {
    RootOfNext(h, emptyRoot, leaves);
    if |leaves| > 2 {
      p := RootIsANode(h, emptyRoot, Next(h, leaves));
    } else {
      p := ParentPair(leaves[0], 0, Sibling(leaves, 0));
      assert p in PairsOf(leaves);
    }
  }

  lemma NextOfRepeatedLast<D>(h: (D, D) -> D, leaves: seq<D>)
    requires |leaves| % 2 == 1
    ensures Next(h, leaves) == Next(h, leaves + [leaves[|leaves| - 1]])
  {
    var longer := leaves + [leaves[|leaves| - 1]];
    assert forall j :: 0 <= j < |leaves| ==> longer[j] == leaves[j];
    forall j | 0 <= j < |Next(h, leaves)| ensures Next(h, leaves)[j] == Next(h, longer)[j] {
    }
  }

  /** The length matters: an odd range and the same range with its last row
      repeated have one root, whatever the hash. */
  lemma RepeatedLastLeafCollides<D>(h: (D, D) -> D, emptyRoot: D, leaves: seq<D>)
    requires |leaves| > 1 && |leaves| % 2 == 1
    ensures Root(h, emptyRoot, leaves) == Root(h, emptyRoot, leaves + [leaves[|leaves| - 1]])
  {
    var longer := leaves + [leaves[|leaves| - 1]];
    RootOfNext(h, emptyRoot, leaves);
    RootOfNext(h, emptyRoot, longer);
    NextOfRepeatedLast(h, leaves);
  }
}
