/** Consistency-proof verification (libs/job_aipkg/job_aipkg_consistency.cpp) against PROOF of
    section 2.1.2 of RFC 6962. */
module Consistency {
  import opened PowersOfTwo
  import opened MerkleTree

  // ----- the RFC side

  /** The recursion on (m, n, b) continues at the split k = SplitPoint(n) with (m, k, b) when
      m <= k, and with (m - k, n - k, false) when m > k. */
  predicate Right(m: nat, n: nat) { m > SplitPoint(n) }

  function InnerM(m: nat, n: nat): nat { if Right(m, n) then m - SplitPoint(n) else m }

  function InnerN(m: nat, n: nat): (r: nat)
    requires 1 <= m < n
    ensures 1 <= InnerM(m, n) <= r < n
  {
    if Right(m, n) then n - SplitPoint(n) else SplitPoint(n)
  }

  /** The half of the leaves the recursion continues in, and the other half. */
  function Inner(m: nat, L: seq<Hash>): (r: seq<Hash>)
    requires 1 <= m < |L|
    ensures |r| == InnerN(m, |L|)
  {
    if Right(m, |L|) then L[SplitPoint(|L|)..] else L[..SplitPoint(|L|)]
  }

  function Outer(m: nat, L: seq<Hash>): (r: seq<Hash>)
    requires 1 <= m < |L|
    ensures 1 <= |r| < |L|
  {
    if Right(m, |L|) then L[..SplitPoint(|L|)] else L[SplitPoint(|L|)..]
  }

  /** SUBPROOF(m, D[n], b) of section 2.1.2, over leaf hashes. */
  function Subproof(node: NodeFn, m: nat, L: seq<Hash>, b: bool): (proof: seq<Hash>)
    requires 1 <= m <= |L|
    ensures |proof| == NodeCount(m, |L|, b)
    decreases |L|
  {
    if m == |L| then if b then [] else [TreeHash(node, L)]
    else Subproof(node, InnerM(m, |L|), Inner(m, L), b && !Right(m, |L|)) + [TreeHash(node, Outer(m, L))]
  }

  /** PROOF(m, D[n]) */
  function Proof(H: HashFn, m: nat, L: seq<Hash>): seq<Hash>
    requires 1 <= m <= |L|
  {
    Subproof(Node(H), m, L, true)
  }

  /** The equations of section 2.1.2: the split k is the power of two with k < n <= 2k. */
  lemma {:induction false} SubproofBase(node: NodeFn, L: seq<Hash>, b: bool)
    requires |L| >= 1
    ensures Subproof(node, |L|, L, b) == if b then [] else [TreeHash(node, L)]
  {
  }

  lemma {:induction false} SubproofLeft(node: NodeFn, m: nat, L: seq<Hash>, b: bool, k: nat)
    requires 1 <= m <= k < |L| <= 2 * k && IsPow2(k)
    ensures Subproof(node, m, L, b) == Subproof(node, m, L[..k], b) + [TreeHash(node, L[k..])]
  {
    SplitPointUnique(|L|, k);
    SubproofUnfold(node, m, L, b, L[..k], L[k..]);
  }

  lemma {:induction false} SubproofUnfold(node: NodeFn, m: nat, L: seq<Hash>, b: bool,
                                          inner: seq<Hash>, outer: seq<Hash>)
    requires 1 <= m < |L| && inner == Inner(m, L) && outer == Outer(m, L)
    ensures Subproof(node, m, L, b) ==
            Subproof(node, InnerM(m, |L|), inner, b && !Right(m, |L|)) + [TreeHash(node, outer)]
  {
  }

  lemma RightHalf(m: nat, L: seq<Hash>, k: nat)
    requires k < m < |L| <= 2 * k && IsPow2(k)
    ensures Right(m, |L|) && InnerM(m, |L|) == m - k && Inner(m, L) == L[k..] && Outer(m, L) == L[..k]
  {
    SplitPointUnique(|L|, k);
  }

  lemma {:induction false} SubproofRight(node: NodeFn, m: nat, L: seq<Hash>, b: bool, k: nat)
    requires k < m < |L| <= 2 * k && IsPow2(k)
    ensures Subproof(node, m, L, b) == Subproof(node, m - k, L[k..], false) + [TreeHash(node, L[..k])]
  {
    RightHalf(m, L, k);
    SubproofUnfold(node, m, L, b, L[k..], L[..k]);
  }

  /** How many nodes the recursion on (m, n, b) consumes. */
  function NodeCount(m: nat, n: nat, b: bool): nat
    requires 1 <= m <= n
    decreases n
  {
    if m == n then if b then 0 else 1
    else NodeCount(InnerM(m, n), InnerN(m, n), b && !Right(m, n)) + 1
  }

  // ----- the C++ side

  /** What one call of `verifySubproof` returns, with the cursor it leaves behind. */
  datatype Rebuilt = Rebuilt(oldSub: Hash, newSub: Hash, idx: nat)

  /** Lines 46-55: the inner call covered the left half; the next node is the right half. */
  function AddRight(node: NodeFn, keepOldRoot: bool, oldRoot: Hash, proof: seq<Hash>, inner: Rebuilt): Rebuilt {
    if inner.idx >= |proof| then Rebuilt(ZERO_HASH, ZERO_HASH, inner.idx)
    else Rebuilt(if keepOldRoot then oldRoot else inner.oldSub,
                 node(inner.newSub, proof[inner.idx]), inner.idx + 1)
  }

  /** Lines 60-66: the inner call covered the right half; the next node is the left half. */
  function AddLeft(node: NodeFn, proof: seq<Hash>, inner: Rebuilt): Rebuilt {
    if inner.idx >= |proof| then Rebuilt(ZERO_HASH, ZERO_HASH, inner.idx)
    else Rebuilt(node(proof[inner.idx], inner.oldSub),
                 node(proof[inner.idx], inner.newSub), inner.idx + 1)
  }

  /** `verifySubproof`, the shared cursor `idx` threaded through. */
  function Reconstruct(node: NodeFn, oldSize: nat, oldRoot: Hash, proof: seq<Hash>, idx: nat,
                       m: nat, n: nat, b: bool): Rebuilt
    requires 1 <= m <= n
    decreases n
  {
    if m == n then
      if b then Rebuilt(oldRoot, oldRoot, idx)
      else if idx >= |proof| then Rebuilt(ZERO_HASH, ZERO_HASH, idx)
      else Rebuilt(proof[idx], proof[idx], idx + 1)
    else
      var inner := Reconstruct(node, oldSize, oldRoot, proof, idx, InnerM(m, n), InnerN(m, n), b && !Right(m, n));
      if Right(m, n) then AddLeft(node, proof, inner)
      else AddRight(node, b && m == oldSize, oldRoot, proof, inner)
  }

  /** The verdict of `JobAiPkgConsistency::verify`. */
  predicate Accepts(H: HashFn, oldSize: nat, oldRoot: Hash, newSize: nat, newRoot: Hash, proof: seq<Hash>) {
    if oldSize == 0 || oldSize > newSize then false
    else if oldSize == newSize then proof == [] && oldRoot == newRoot
    else
      var top := Reconstruct(Node(H), oldSize, oldRoot, proof, 0, oldSize, newSize, true);
      top.idx == |proof| && top.oldSub == oldRoot && top.newSub == newRoot
  }

  /** The closure `verifySubproof` with its captured variables. */
  class SubproofVerifier {
    const node: NodeFn
    const oldSize: nat
    const oldRoot: Hash
    const proof: seq<Hash>
    var idx: nat

    constructor (node: NodeFn, oldSize: nat, oldRoot: Hash, proof: seq<Hash>)
      ensures this.node == node && this.oldSize == oldSize && this.oldRoot == oldRoot && this.proof == proof
      ensures idx == 0
    {
      this.node, this.oldSize, this.oldRoot, this.proof := node, oldSize, oldRoot, proof;
      idx := 0;
    }

    method VerifySubproof(m: nat, n: nat, b: bool) returns (oldSub: Hash, newSub: Hash)
      requires 1 <= m <= n <= HALF_WORD
      modifies this`idx
      ensures Rebuilt(oldSub, newSub, idx) == Reconstruct(node, oldSize, oldRoot, proof, old(idx), m, n, b)
      decreases n
    {
      if m == n {
        if b { return oldRoot, oldRoot; }
        if idx >= |proof| { return ZERO_HASH, ZERO_HASH; }
        var h := proof[idx];
        idx := idx + 1;
        return h, h;
      }
      ghost var before := idx;
      var k := LargestPowerOfTwoLessThan(n);
      if m <= k {
        var oldLeft, newLeft := VerifySubproof(m, k, b);
        assert Reconstruct(node, oldSize, oldRoot, proof, before, m, n, b)
            == AddRight(node, b && m == oldSize, oldRoot, proof, Rebuilt(oldLeft, newLeft, idx));
        if idx >= |proof| { return ZERO_HASH, ZERO_HASH; }
        var right := proof[idx];
        idx := idx + 1;
        oldSub := if b && m == oldSize then oldRoot else oldLeft;
        newSub := node(newLeft, right);
      } else {
        var oldRight, newRight := VerifySubproof(m - k, n - k, false);
        assert Reconstruct(node, oldSize, oldRoot, proof, before, m, n, b)
            == AddLeft(node, proof, Rebuilt(oldRight, newRight, idx));
        if idx >= |proof| { return ZERO_HASH, ZERO_HASH; }
        var left := proof[idx];
        idx := idx + 1;
        oldSub := node(left, oldRight);
        newSub := node(left, newRight);
      }
    }
  }

  /** `JobAiPkgConsistency::verify`. Sizes above 2^63 that reach the recursion would make
      `largestPowerOfTwoLessThan` run forever (PowersOfTwo.LoopEndsExactly). */
  method Verify(H: HashFn, oldSize: nat, oldRoot: Hash, newSize: nat, newRoot: Hash, proof: seq<Hash>)
    returns (ok: bool)
    requires 0 < oldSize < newSize ==> newSize <= HALF_WORD
    ensures ok <==> Accepts(H, oldSize, oldRoot, newSize, newRoot, proof)
  {
    if oldSize == 0 || oldSize > newSize { return false; }
    if oldSize == newSize { return proof == [] && oldRoot == newRoot; }
    var verifier := new SubproofVerifier(Node(H), oldSize, oldRoot, proof);
    var computedOld, computedNew := verifier.VerifySubproof(oldSize, newSize, true);
    if verifier.idx != |proof| { return false; }
    return computedOld == oldRoot && computedNew == newRoot;
  }

  // ----- the recursion on a proof segment of exactly the right length

  /** The two roots rebuilt from a segment that holds every node the recursion asks for. */
  function Roots(node: NodeFn, oldRoot: Hash, segment: seq<Hash>, m: nat, n: nat, b: bool): (Hash, Hash)
    requires 1 <= m <= n && |segment| == NodeCount(m, n, b)
    decreases n
  {
    if m == n then if b then (oldRoot, oldRoot) else (segment[0], segment[0])
    else
      var last := segment[|segment| - 1];
      var inner := Roots(node, oldRoot, segment[..|segment| - 1], InnerM(m, n), InnerN(m, n), b && !Right(m, n));
      if Right(m, n) then (node(last, inner.0), node(last, inner.1))
      else (if b then oldRoot else inner.0, node(inner.1, last))
  }

  /** The cursor recursion reads its segment in order. */
  lemma {:induction false} ReconstructFull(node: NodeFn, oldSize: nat, oldRoot: Hash, proof: seq<Hash>, idx: nat,
                                           m: nat, n: nat, b: bool, segment: seq<Hash>)
    requires 1 <= m <= n && (b ==> m == oldSize)
    requires |segment| == NodeCount(m, n, b) && idx + |segment| <= |proof| && segment == proof[idx..idx + |segment|]
    ensures var roots := Roots(node, oldRoot, segment, m, n, b);
            Reconstruct(node, oldSize, oldRoot, proof, idx, m, n, b) == Rebuilt(roots.0, roots.1, idx + |segment|)
    decreases n
  {
    if m < n {
      var front, last := segment[..|segment| - 1], segment[|segment| - 1];
      var mm, nn, bb := InnerM(m, n), InnerN(m, n), b && !Right(m, n);
      FrontOfSegment(proof, idx, segment);
      ReconstructFull(node, oldSize, oldRoot, proof, idx, mm, nn, bb, front);
      RootsUnfold(node, oldRoot, segment, m, n, b, front, last);
      var inner := Roots(node, oldRoot, front, mm, nn, bb);
      ReconstructUnfold(node, oldSize, oldRoot, proof, idx, m, n, b, Rebuilt(inner.0, inner.1, idx + |front|));
    }
  }

  lemma FrontOfSegment(proof: seq<Hash>, idx: nat, segment: seq<Hash>)
    requires segment != [] && idx + |segment| <= |proof| && segment == proof[idx..idx + |segment|]
    ensures var n := |segment| - 1;
            segment[..n] == proof[idx..idx + n] && segment[n] == proof[idx + n] &&
            segment == segment[..n] + [segment[n]]
  {
  }

  lemma {:induction false} RootsUnfold(node: NodeFn, oldRoot: Hash, segment: seq<Hash>, m: nat, n: nat, b: bool,
                                       front: seq<Hash>, last: Hash)
    requires 1 <= m < n && |segment| == NodeCount(m, n, b) && segment == front + [last]
    ensures var inner := Roots(node, oldRoot, front, InnerM(m, n), InnerN(m, n), b && !Right(m, n));
            Roots(node, oldRoot, segment, m, n, b) ==
            if Right(m, n) then (node(last, inner.0), node(last, inner.1))
            else (if b then oldRoot else inner.0, node(inner.1, last))
  {
    assert segment[..|segment| - 1] == front;
  }

  lemma {:induction false} ReconstructUnfold(node: NodeFn, oldSize: nat, oldRoot: Hash, proof: seq<Hash>, idx: nat,
                                             m: nat, n: nat, b: bool, inner: Rebuilt)
    requires 1 <= m < n
    requires inner == Reconstruct(node, oldSize, oldRoot, proof, idx, InnerM(m, n), InnerN(m, n), b && !Right(m, n))
    ensures Reconstruct(node, oldSize, oldRoot, proof, idx, m, n, b) ==
            if Right(m, n) then AddLeft(node, proof, inner)
            else AddRight(node, b && m == oldSize, oldRoot, proof, inner)
  {
  }

  /** Or it runs dry and collapses to zero hashes. */
  lemma {:induction false} ReconstructDry(node: NodeFn, oldSize: nat, oldRoot: Hash, proof: seq<Hash>, idx: nat,
                                          m: nat, n: nat, b: bool)
    requires 1 <= m <= n && (b ==> m == oldSize)
    requires idx <= |proof| < idx + NodeCount(m, n, b)
    ensures Reconstruct(node, oldSize, oldRoot, proof, idx, m, n, b) == Rebuilt(ZERO_HASH, ZERO_HASH, |proof|)
    decreases n
  {
    if m < n {
      var mm, nn, bb := InnerM(m, n), InnerN(m, n), b && !Right(m, n);
      if idx + NodeCount(mm, nn, bb) == |proof| {
        ReconstructFull(node, oldSize, oldRoot, proof, idx, mm, nn, bb, proof[idx..]);
      } else {
        ReconstructDry(node, oldSize, oldRoot, proof, idx, mm, nn, bb);
      }
    }
  }

  /** Exactly which proofs are accepted, for all sizes: the old size is not zero and not above the new
      one, and either the proof has exactly the node count and the rebuilt roots match, or it is shorter
      and both roots are the zero hash. */
  lemma VerdictExact(H: HashFn, m: nat, oldRoot: Hash, n: nat, newRoot: Hash, proof: seq<Hash>)
    ensures Accepts(H, m, oldRoot, n, newRoot, proof) <==>
            1 <= m <= n &&
            ((|proof| == NodeCount(m, n, true) && Roots(Node(H), oldRoot, proof, m, n, true) == (oldRoot, newRoot)) ||
             (|proof| < NodeCount(m, n, true) && oldRoot == newRoot == ZERO_HASH))
  {
    if 1 <= m < n { VerdictBetween(H, m, oldRoot, n, newRoot, proof); }
  }

  lemma VerdictBetween(H: HashFn, m: nat, oldRoot: Hash, n: nat, newRoot: Hash, proof: seq<Hash>)
    requires 1 <= m < n
    ensures Accepts(H, m, oldRoot, n, newRoot, proof) <==>
            ((|proof| == NodeCount(m, n, true) && Roots(Node(H), oldRoot, proof, m, n, true) == (oldRoot, newRoot)) ||
             (|proof| < NodeCount(m, n, true) && oldRoot == newRoot == ZERO_HASH))
  {
    var c := NodeCount(m, n, true);
    if c <= |proof| {
      ReconstructFull(Node(H), m, oldRoot, proof, 0, m, n, true, proof[..c]);
      if c == |proof| { assert proof[..c] == proof; }
    } else {
      ReconstructDry(Node(H), m, oldRoot, proof, 0, m, n, true);
    }
  }

  // ----- proof length

  function CeilLog2(n: nat): nat {
    if n <= 1 then 0 else 1 + CeilLog2((n + 1) / 2)
  }

  /** The least exponent whose power of two reaches n. */
  lemma {:induction false} CeilLog2Exact(n: nat)
    requires n >= 1
    ensures n <= Pow2(CeilLog2(n)) && (n > 1 ==> CeilLog2(n) >= 1 && Pow2(CeilLog2(n) - 1) < n)
  {
    if n > 1 { CeilLog2Exact((n + 1) / 2); }
  }

  lemma {:induction false} CeilLog2Mono(a: nat, b: nat)
    requires a <= b
    ensures CeilLog2(a) <= CeilLog2(b)
  {
    if a > 1 { CeilLog2Mono((a + 1) / 2, (b + 1) / 2); }
  }

  lemma CeilLog2Double(k: nat)
    requires k >= 1
    ensures CeilLog2(2 * k) == CeilLog2(k) + 1
  {
    assert (2 * k + 1) / 2 == k;
  }

  /** ceil(log2) is constant on (k, 2k] for a power of two k. */
  lemma {:induction false} CeilLog2OnOctave(k: nat, n: nat)
    requires IsPow2(k) && k < n <= 2 * k
    ensures CeilLog2(n) == CeilLog2(k) + 1
  {
    if k > 1 {
      CeilLog2OnOctave(k / 2, (n + 1) / 2);
      CeilLog2Double(k / 2);
    }
  }

  lemma CeilLog2Split(n: nat)
    requires n >= 2
    ensures CeilLog2(n) == CeilLog2(SplitPoint(n)) + 1
  {
    SplitPointIsPow2(n);
    CeilLog2OnOctave(SplitPoint(n), n);
  }

  /** A proof has at most ceil(log2 n) + 1 nodes. */
  lemma {:induction false} NodeCountBound(m: nat, n: nat, b: bool)
    requires 1 <= m <= n
    ensures NodeCount(m, n, b) <= CeilLog2(n) + 1
    decreases n
  {
    if m < n {
      var k := SplitPoint(n);
      CeilLog2Split(n);
      NodeCountBound(InnerM(m, n), InnerN(m, n), b && !Right(m, n));
      CeilLog2Mono(InnerN(m, n), k);
    }
  }

  /** Acceptance means sizes 1 <= m <= n and a proof of exactly the node count, hence at most
      ceil(log2 n) + 1 nodes and none between equal sizes, unless both roots are the zero hash, when
      every shorter proof is accepted too. */
  lemma AcceptedLength(H: HashFn, m: nat, oldRoot: Hash, n: nat, newRoot: Hash, proof: seq<Hash>)
    requires Accepts(H, m, oldRoot, n, newRoot, proof)
    ensures 1 <= m <= n && (m == n ==> proof == [] && oldRoot == newRoot)
    ensures |proof| <= NodeCount(m, n, true) <= CeilLog2(n) + 1
    ensures |proof| == NodeCount(m, n, true) || (oldRoot == ZERO_HASH && newRoot == ZERO_HASH)
  {
    VerdictExact(H, m, oldRoot, n, newRoot, proof);
    NodeCountBound(m, n, true);
  }

  // ----- completeness

  /** The root of a prefix that reaches into the right half has the same split point. */
  lemma PrefixRoot(node: NodeFn, m: nat, L: seq<Hash>)
    requires 1 <= m <= |L| && |L| >= 2
    ensures var k := SplitPoint(|L|);
            if m <= k then L[..k][..m] == L[..m]
            else TreeHash(node, L[..m]) == node(TreeHash(node, L[..k]), TreeHash(node, L[k..][..m - k]))
  {
    var k := SplitPoint(|L|);
    if m > k {
      SplitPointIsPow2(|L|);
      SplitPointUnique(m, k);
      var whole, left, right := L[..m], L[..k], L[k..][..m - k];
      assert whole == left + right;
      TreeHashOfHalves(node, whole, left, right);
    } else {
      assert L[..k][..m] == L[..m];
    }
  }

  lemma {:induction false} SubproofRebuilds(node: NodeFn, oldRoot: Hash, m: nat, L: seq<Hash>, b: bool)
    requires 1 <= m <= |L| && (b ==> oldRoot == TreeHash(node, L[..m]))
    ensures Roots(node, oldRoot, Subproof(node, m, L, b), m, |L|, b) == (TreeHash(node, L[..m]), TreeHash(node, L))
    decreases |L|
  {
    if m == |L| {
      assert L[..m] == L;
    } else {
      PrefixRoot(node, m, L);
      var inner := Subproof(node, InnerM(m, |L|), Inner(m, L), b && !Right(m, |L|));
      assert Subproof(node, m, L, b)[..|inner|] == inner;
      SubproofRebuilds(node, oldRoot, InnerM(m, |L|), Inner(m, L), b && !Right(m, |L|));
    }
  }

  /** Every RFC proof between two prefixes of one log is accepted. */
  lemma Completeness(H: HashFn, m: nat, L: seq<Hash>)
    requires 1 <= m <= |L|
    ensures Accepts(H, m, ComputeRoot(H, L[..m]), |L|, ComputeRoot(H, L), Proof(H, m, L))
  {
    RootIsTreeHash(H, L[..m]);
    RootIsTreeHash(H, L);
    if m == |L| {
      assert L[..m] == L;
    } else {
      SubproofRebuilds(Node(H), TreeHash(Node(H), L[..m]), m, L, true);
      VerdictExact(H, m, TreeHash(Node(H), L[..m]), |L|, TreeHash(Node(H), L), Proof(H, m, L));
    }
  }

  // ----- binding

  /** The base case of the recursion is reached with `b` still set, so that the old root itself
      is a node of the new tree. */
  predicate OnSpine(m: nat, n: nat)
    requires 1 <= m <= n
    decreases n
  {
    m == n || (!Right(m, n) && OnSpine(InnerM(m, n), InnerN(m, n)))
  }

  lemma {:induction false} SpineIsPow2(m: nat, n: nat)
    requires 1 <= m <= n
    ensures OnSpine(m, n) <==> (m == n || IsPow2(m))
    decreases n
  {
    if m < n {
      var k := SplitPoint(n);
      SplitPointIsPow2(n);
      if m <= k {
        SpineIsPow2(m, k);
      } else if IsPow2(m) {
        OctaveUnique(k, m);
      }
    }
  }

  /** Two pairs of child hashes. */
  datatype Children = Children(a: Hash, b: Hash, c: Hash, d: Hash) {
    predicate Clash(node: NodeFn) { (a != c || b != d) && node(a, b) == node(c, d) }

    function ToInputs(): Inputs { Inputs(NodeInput(a, b), NodeInput(c, d)) }
  }

  /** The children rebuilt for the root, beside those of the tree over L. */
  function RootChildren(node: NodeFn, oldRoot: Hash, segment: seq<Hash>, m: nat, L: seq<Hash>, b: bool): Children
    requires 1 <= m < |L| && |segment| == NodeCount(m, |L|, b)
  {
    var last := segment[|segment| - 1];
    var inner := Roots(node, oldRoot, segment[..|segment| - 1], InnerM(m, |L|), InnerN(m, |L|), b && !Right(m, |L|)).1;
    if Right(m, |L|) then Children(last, inner, TreeHash(node, Outer(m, L)), TreeHash(node, Inner(m, L)))
    else Children(inner, last, TreeHash(node, Inner(m, L)), TreeHash(node, Outer(m, L)))
  }

  /** Walks down the rebuilt new tree to the first differing pair of children. */
  function FirstClash(node: NodeFn, oldRoot: Hash, segment: seq<Hash>, m: nat, L: seq<Hash>, b: bool): Children
    requires 1 <= m < |L| && |segment| == NodeCount(m, |L|, b)
    decreases |L|
  {
    var p := RootChildren(node, oldRoot, segment, m, L, b);
    if p.a != p.c || p.b != p.d || InnerM(m, |L|) == InnerN(m, |L|) then p
    else FirstClash(node, oldRoot, segment[..|segment| - 1], InnerM(m, |L|), Inner(m, L), b && !Right(m, |L|))
  }

  /** The hash inputs at which an accepted proof departs from the tree over L. */
  function ProofCollision(H: HashFn, oldRoot: Hash, proof: seq<Hash>, m: nat, L: seq<Hash>): Inputs
    requires 1 <= m < |L| && |proof| == NodeCount(m, |L|, true)
  {
    FirstClash(Node(H), oldRoot, proof, m, L, true).ToInputs()
  }

  lemma ClashCollides(H: HashFn, p: Children)
    requires p.Clash(Node(H))
    ensures Collides(H, p.ToInputs())
  {
    if NodeInput(p.a, p.b) == NodeInput(p.c, p.d) { NodeInputInjective(p.a, p.b, p.c, p.d); }
  }

  /** What a segment that rebuilds the root of L is bound to. */
  ghost predicate Bound(node: NodeFn, oldRoot: Hash, segment: seq<Hash>, m: nat, L: seq<Hash>, b: bool)
    requires 1 <= m <= |L| && |segment| == NodeCount(m, |L|, b)
  {
    || (segment == Subproof(node, m, L, b) && (b && OnSpine(m, |L|) ==> oldRoot == TreeHash(node, L[..m])))
    || (m < |L| && FirstClash(node, oldRoot, segment, m, L, b).Clash(node))
  }

  lemma ChildrenOfRoot(node: NodeFn, oldRoot: Hash, segment: seq<Hash>, m: nat, L: seq<Hash>, b: bool)
    requires 1 <= m < |L| && |segment| == NodeCount(m, |L|, b)
    requires Roots(node, oldRoot, segment, m, |L|, b).1 == TreeHash(node, L)
    ensures var p := RootChildren(node, oldRoot, segment, m, L, b); node(p.a, p.b) == node(p.c, p.d)
  {
  }

  lemma {:induction false} SegmentOfInner(node: NodeFn, segment: seq<Hash>, m: nat, L: seq<Hash>, b: bool,
                                          front: seq<Hash>, last: Hash)
    requires 1 <= m < |L| && segment == front + [last] && last == TreeHash(node, Outer(m, L))
    requires front == Subproof(node, InnerM(m, |L|), Inner(m, L), b && !Right(m, |L|))
    ensures segment == Subproof(node, m, L, b)
  {
    SubproofUnfold(node, m, L, b, Inner(m, L), Outer(m, L));
  }

  lemma SplitLast(segment: seq<Hash>)
    requires segment != []
    ensures segment == segment[..|segment| - 1] + [segment[|segment| - 1]]
  {
  }

  lemma BoundByInner(node: NodeFn, oldRoot: Hash, segment: seq<Hash>, m: nat, L: seq<Hash>, b: bool)
    requires 1 <= m < |L| && |segment| == NodeCount(m, |L|, b)
    requires var p := RootChildren(node, oldRoot, segment, m, L, b); p.a == p.c && p.b == p.d
    requires Bound(node, oldRoot, segment[..|segment| - 1], InnerM(m, |L|), Inner(m, L), b && !Right(m, |L|))
    ensures Bound(node, oldRoot, segment, m, L, b)
  {
    var rest, mm, half, bb := segment[..|segment| - 1], InnerM(m, |L|), Inner(m, L), b && !Right(m, |L|);
    if mm < |half| && FirstClash(node, oldRoot, rest, mm, half, bb).Clash(node) {
      ClashOfInner(node, oldRoot, segment, m, L, b);
    } else {
      SplitLast(segment);
      SegmentOfInner(node, segment, m, L, b, rest, segment[|segment| - 1]);
      PrefixOfInner(m, L);
    }
  }

  /** The old leaves on the left lie in the left half. */
  lemma PrefixOfInner(m: nat, L: seq<Hash>)
    requires 1 <= m < |L|
    ensures !Right(m, |L|) ==> m == InnerM(m, |L|) && Inner(m, L)[..m] == L[..m]
  {
  }

  lemma ClashOfInner(node: NodeFn, oldRoot: Hash, segment: seq<Hash>, m: nat, L: seq<Hash>, b: bool)
    requires 1 <= m < |L| && |segment| == NodeCount(m, |L|, b) && InnerM(m, |L|) < InnerN(m, |L|)
    requires var p := RootChildren(node, oldRoot, segment, m, L, b); p.a == p.c && p.b == p.d
    ensures FirstClash(node, oldRoot, segment, m, L, b) ==
            FirstClash(node, oldRoot, segment[..|segment| - 1], InnerM(m, |L|), Inner(m, L), b && !Right(m, |L|))
  {
  }

  /** A segment that rebuilds the new root is the RFC segment, or two child pairs clash. */
  lemma {:induction false} SegmentBinding(node: NodeFn, oldRoot: Hash, segment: seq<Hash>, m: nat, L: seq<Hash>,
                                          b: bool)
    requires 1 <= m <= |L| && |segment| == NodeCount(m, |L|, b)
    requires Roots(node, oldRoot, segment, m, |L|, b).1 == TreeHash(node, L)
    ensures Bound(node, oldRoot, segment, m, L, b)
    decreases |L|
  {
    if m == |L| {
      assert L[..m] == L;
    } else {
      ChildrenOfRoot(node, oldRoot, segment, m, L, b);
      var p := RootChildren(node, oldRoot, segment, m, L, b);
      if p.a == p.c && p.b == p.d {
        SegmentBinding(node, oldRoot, segment[..|segment| - 1], InnerM(m, |L|), Inner(m, L), b && !Right(m, |L|));
        BoundByInner(node, oldRoot, segment, m, L, b);
      } else {
        assert FirstClash(node, oldRoot, segment, m, L, b) == p;
      }
    }
  }

  /** The size pairs for which the verdict depends on the old root. Line 52 of the C++ file
      returns `oldRoot` itself instead of the rebuilt hash whenever the first split keeps the
      whole old tree on the left, so the old root is compared with something only in these. */
  predicate OldRootChecked(m: nat, n: nat) {
    m >= n || IsPow2(m) || m > SplitPoint(n)
  }

  /** Acceptance against the root of L means the proof is the RFC proof, and for checked size
      pairs the old root is the root of the prefix; otherwise the extractor gives a collision. */
  lemma Soundness(H: HashFn, m: nat, oldRoot: Hash, L: seq<Hash>, proof: seq<Hash>)
    requires ComputeRoot(H, L) != ZERO_HASH && Accepts(H, m, oldRoot, |L|, ComputeRoot(H, L), proof)
    ensures 1 <= m <= |L| && |proof| == NodeCount(m, |L|, true)
    ensures (proof == Proof(H, m, L) && (OldRootChecked(m, |L|) ==> oldRoot == ComputeRoot(H, L[..m])))
            || (m < |L| && Collides(H, ProofCollision(H, oldRoot, proof, m, L)))
  {
    AcceptedLength(H, m, oldRoot, |L|, ComputeRoot(H, L), proof);
    if m < |L| { SoundnessBetween(H, m, oldRoot, L, proof); } else { assert L[..m] == L; }
  }

  lemma SoundnessBetween(H: HashFn, m: nat, oldRoot: Hash, L: seq<Hash>, proof: seq<Hash>)
    requires 1 <= m < |L| && ComputeRoot(H, L) != ZERO_HASH
    requires Accepts(H, m, oldRoot, |L|, ComputeRoot(H, L), proof)
    ensures |proof| == NodeCount(m, |L|, true)
    ensures (proof == Proof(H, m, L) && (OldRootChecked(m, |L|) ==> oldRoot == ComputeRoot(H, L[..m])))
            || Collides(H, ProofCollision(H, oldRoot, proof, m, L))
  {
    RootIsTreeHash(H, L);
    RootIsTreeHash(H, L[..m]);
    VerdictExact(H, m, oldRoot, |L|, ComputeRoot(H, L), proof);
    SegmentBinding(Node(H), oldRoot, proof, m, L, true);
    SpineIsPow2(m, |L|);
    if FirstClash(Node(H), oldRoot, proof, m, L, true).Clash(Node(H)) {
      ClashCollides(H, FirstClash(Node(H), oldRoot, proof, m, L, true));
    } else if m > SplitPoint(|L|) {
      SubproofRebuilds(Node(H), TreeHash(Node(H), L[..m]), m, L, true);
      OldRootUnusedOnRight(Node(H), oldRoot, TreeHash(Node(H), L[..m]), proof, m, |L|);
    }
  }

  lemma {:induction false} OldRootUnused(node: NodeFn, r: Hash, s: Hash, segment: seq<Hash>, m: nat, n: nat)
    requires 1 <= m <= n && |segment| == NodeCount(m, n, false)
    ensures Roots(node, r, segment, m, n, false) == Roots(node, s, segment, m, n, false)
    decreases n
  {
    if m < n { OldRootUnused(node, r, s, segment[..|segment| - 1], InnerM(m, n), InnerN(m, n)); }
  }

  lemma OldRootUnusedOnRight(node: NodeFn, r: Hash, s: Hash, segment: seq<Hash>, m: nat, n: nat)
    requires 1 <= m < n && Right(m, n) && |segment| == NodeCount(m, n, true)
    ensures Roots(node, r, segment, m, n, true) == Roots(node, s, segment, m, n, true)
  {
    OldRootUnused(node, r, s, segment[..|segment| - 1], InnerM(m, n), InnerN(m, n));
  }

  /** Off the spine the rebuilt new root does not involve the old root. */
  lemma {:induction false} NewRootIgnoresOldRoot(node: NodeFn, r: Hash, s: Hash, segment: seq<Hash>, m: nat, n: nat)
    requires 1 <= m <= n && !OnSpine(m, n) && |segment| == NodeCount(m, n, true)
    ensures Roots(node, r, segment, m, n, true).1 == Roots(node, s, segment, m, n, true).1
    decreases n
  {
    if !Right(m, n) {
      NewRootIgnoresOldRoot(node, r, s, segment[..|segment| - 1], InnerM(m, n), InnerN(m, n));
    } else {
      OldRootUnusedOnRight(node, r, s, segment, m, n);
    }
  }

  /** For every other size pair the verdict is the same for all old roots. */
  lemma VerdictIgnoresOldRoot(H: HashFn, m: nat, r: Hash, s: Hash, n: nat, newRoot: Hash, proof: seq<Hash>)
    requires 1 <= m < n && !OldRootChecked(m, n) && newRoot != ZERO_HASH
    ensures Accepts(H, m, r, n, newRoot, proof) <==> Accepts(H, m, s, n, newRoot, proof)
  {
    VerdictExact(H, m, r, n, newRoot, proof);
    VerdictExact(H, m, s, n, newRoot, proof);
    SpineIsPow2(m, n);
    if |proof| == NodeCount(m, n, true) { NewRootIgnoresOldRoot(Node(H), r, s, proof, m, n); }
  }

  /** "Accepted proofs fix the old root" holds for a size pair exactly when it is a checked one:
      the RFC proof of any log is accepted with this old root, right or wrong. */
  lemma OldRootFixedExactly(H: HashFn, m: nat, oldRoot: Hash, L: seq<Hash>)
    requires 1 <= m < |L|
    requires oldRoot != ComputeRoot(H, L[..m]) && ComputeRoot(H, L) != ZERO_HASH
    ensures var accepted := Accepts(H, m, oldRoot, |L|, ComputeRoot(H, L), Proof(H, m, L));
            (accepted ==> !OldRootChecked(m, |L|) || Collides(H, ProofCollision(H, oldRoot, Proof(H, m, L), m, L)))
            && (!OldRootChecked(m, |L|) ==> accepted)
  {
    if Accepts(H, m, oldRoot, |L|, ComputeRoot(H, L), Proof(H, m, L)) {
      Soundness(H, m, oldRoot, L, Proof(H, m, L));
    }
    if !OldRootChecked(m, |L|) {
      Completeness(H, m, L);
      VerdictIgnoresOldRoot(H, m, oldRoot, ComputeRoot(H, L[..m]), |L|, ComputeRoot(H, L), Proof(H, m, L));
    }
  }

  /** The smallest unchecked pair: from 3 to 5 leaves every old root is accepted. */
  lemma ThreeToFiveAcceptsAnyOldRoot(H: HashFn, L: seq<Hash>, oldRoot: Hash)
    requires |L| == 5 && ComputeRoot(H, L) != ZERO_HASH
    ensures !OldRootChecked(3, 5)
    ensures Accepts(H, 3, oldRoot, 5, ComputeRoot(H, L), Proof(H, 3, L))
  {
    assert SplitPoint(5) == 4;
    Completeness(H, 3, L);
    VerdictIgnoresOldRoot(H, 3, oldRoot, ComputeRoot(H, L[..3]), 5, ComputeRoot(H, L), Proof(H, 3, L));
  }
}
