/** Audit-path folding (libs/job_aipkg/job_aipkg_inclusion.cpp) against PATH of
    section 2.1.1 of RFC 6962. */
module Inclusion {
  import opened Bytes
  import opened PowersOfTwo
  import opened MerkleTree

  /** `is_right` is a u32 on the wire; only the value 1 means "sibling on the right". */
  datatype AuditNode = AuditNode(sibling: Hash, isRight: nat) {
    predicate Right() { isRight == 1 }
  }

  function StepInput(current: Hash, step: AuditNode): seq<Byte> {
    if step.Right() then NodeInput(current, step.sibling) else NodeInput(step.sibling, current)
  }

  /** The hash reached from `leaf` by following the path; the last node is next to the root. */
  function FoldPath(H: HashFn, leaf: Hash, path: seq<AuditNode>): Hash {
    if path == [] then leaf
    else H(StepInput(FoldPath(H, leaf, path[..|path| - 1]), path[|path| - 1]))
  }

  /** `computeRootFromPath` */
  method ComputeRootFromPath(H: HashFn, leaf: Hash, path: seq<AuditNode>) returns (current: Hash)
    ensures current == FoldPath(H, leaf, path)
  {
    current := leaf;
    for i := 0 to |path|
      invariant current == FoldPath(H, leaf, path[..i])
    {
      var step := path[i];
      assert path[..i + 1][..i] == path[..i];
      current := if step.isRight == 1 then NodeHash(H, current, step.sibling)
                 else NodeHash(H, step.sibling, current);
    }
    assert path[..|path|] == path;
  }

  /** `JobAiPkgInclusion::verify` */
  method Verify(H: HashFn, leaf: Hash, path: seq<AuditNode>, trustedRoot: Hash) returns (ok: bool)
    ensures ok <==> FoldPath(H, leaf, path) == trustedRoot
  {
    var computed := ComputeRootFromPath(H, leaf, path);
    ok := computed == trustedRoot;
  }

  /** The half of a tree in which a path step continues, and the half its sibling covers. */
  function Near<T>(s: seq<T>, right: bool): (r: seq<T>)
    requires |s| >= 2
    ensures 1 <= |r| < |s|
  {
    if right then s[..SplitPoint(|s|)] else s[SplitPoint(|s|)..]
  }

  function Far<T>(s: seq<T>, right: bool): (r: seq<T>)
    requires |s| >= 2
    ensures 1 <= |r| < |s|
  {
    Near(s, !right)
  }

  /** The index of leaf m within its half. */
  function NearIndex(m: nat, n: nat): (i: nat)
    requires m < n && n >= 2
    ensures i < if m < SplitPoint(n) then SplitPoint(n) else n - SplitPoint(n)
  {
    if m < SplitPoint(n) then m else m - SplitPoint(n)
  }

  /** PATH(m, D[n]) of section 2.1.1, each sibling tagged with its side. */
  function Path(H: HashFn, m: nat, L: seq<Hash>): seq<AuditNode>
    requires m < |L|
    decreases |L|
  {
    if |L| == 1 then []
    else
      var right := m < SplitPoint(|L|);
      Path(H, NearIndex(m, |L|), Near(L, right)) + [AuditNode(TreeHash(Node(H), Far(L, right)), if right then 1 else 0)]
  }

  /** Equal siblings on equal sides: the fold cannot tell the two paths apart. */
  ghost predicate SameSteps(p: seq<AuditNode>, q: seq<AuditNode>) {
    |p| == |q| && forall i :: 0 <= i < |p| ==> p[i].sibling == q[i].sibling && (p[i].Right() <==> q[i].Right())
  }

  /** Sides of the path of leaf m in a tree with n leaves, leaf end first; true is right. */
  function Sides(m: nat, n: nat): seq<bool>
    requires m < n
    decreases n
  {
    if n == 1 then []
    else
      var k := SplitPoint(n);
      Sides(NearIndex(m, n), if m < k then k else n - k) + [m < k]
  }

  ghost predicate HasSides(path: seq<AuditNode>, sides: seq<bool>) {
    |path| == |sides| && forall i :: 0 <= i < |path| ==> (path[i].Right() <==> sides[i])
  }

  /** The leaf a path leads to when its sides are read from the root down. */
  function LeafIndex(path: seq<AuditNode>, n: nat): (m: nat)
    requires n >= 1
    ensures m < n
    decreases |path|
  {
    if n == 1 || path == [] then 0
    else
      var k := SplitPoint(n);
      var rest := path[..|path| - 1];
      if path[|path| - 1].Right() then LeafIndex(rest, k) else k + LeafIndex(rest, n - k)
  }

  /** The equations of section 2.1.1, leaf end first: the split k is the power of two with k < n <= 2k. */
  lemma {:induction false} PathEquations(H: HashFn, m: nat, L: seq<Hash>, k: nat)
    requires m < |L|
    ensures |L| == 1 ==> Path(H, m, L) == []
    ensures IsPow2(k) && k < |L| <= 2 * k && m < k ==>
              Path(H, m, L) == Path(H, m, L[..k]) + [AuditNode(TreeHash(Node(H), L[k..]), 1)]
    ensures IsPow2(k) && k < |L| <= 2 * k && m >= k ==>
              Path(H, m, L) == Path(H, m - k, L[k..]) + [AuditNode(TreeHash(Node(H), L[..k]), 0)]
  {
    if IsPow2(k) && k < |L| <= 2 * k { SplitPointUnique(|L|, k); }
  }

  /** What one node of a path does: only the value 1 puts the sibling on the right. */
  lemma {:induction false} FoldEquations(H: HashFn, leaf: Hash, path: seq<AuditNode>, sibling: Hash, isRight: nat)
    ensures FoldPath(H, leaf, []) == leaf
    ensures var current := FoldPath(H, leaf, path);
            FoldPath(H, leaf, path + [AuditNode(sibling, isRight)]) ==
            if isRight == 1 then H([0x01] + current.bytes + sibling.bytes)
            else H([0x01] + sibling.bytes + current.bytes)
  {
    FoldAppend(H, leaf, path, AuditNode(sibling, isRight));
  }

  // ----- completeness

  lemma {:induction false} FoldSameSteps(H: HashFn, leaf: Hash, p: seq<AuditNode>, q: seq<AuditNode>)
    requires SameSteps(p, q)
    ensures FoldPath(H, leaf, p) == FoldPath(H, leaf, q)
  {
    if p != [] { FoldSameSteps(H, leaf, p[..|p| - 1], q[..|q| - 1]); }
  }

  lemma FoldAppend(H: HashFn, leaf: Hash, path: seq<AuditNode>, step: AuditNode)
    ensures FoldPath(H, leaf, path + [step]) == H(StepInput(FoldPath(H, leaf, path), step))
  {
    assert (path + [step])[..|path|] == path;
  }

  lemma {:induction false} PathHasSides(H: HashFn, m: nat, L: seq<Hash>)
    requires m < |L|
    ensures HasSides(Path(H, m, L), Sides(m, |L|))
    decreases |L|
  {
    if |L| > 1 {
      PathHasSides(H, NearIndex(m, |L|), Near(L, m < SplitPoint(|L|)));
    }
  }

  lemma RootStep(H: HashFn, L: seq<Hash>, right: bool)
    requires |L| >= 2
    ensures TreeHash(Node(H), L) == H(StepInput(TreeHash(Node(H), Near(L, right)),
                                                AuditNode(TreeHash(Node(H), Far(L, right)), if right then 1 else 0)))
  {
  }

  /** Every audit path of the RFC folds to the root. */
  lemma {:induction false} PathReachesRoot(H: HashFn, m: nat, L: seq<Hash>)
    requires m < |L|
    ensures FoldPath(H, L[m], Path(H, m, L)) == TreeHash(Node(H), L)
    decreases |L|
  {
    if |L| > 1 {
      var right, i := m < SplitPoint(|L|), NearIndex(m, |L|);
      var near, far := Near(L, right), Far(L, right);
      PathReachesRoot(H, i, near);
      FoldAppend(H, L[m], Path(H, i, near), AuditNode(TreeHash(Node(H), far), if right then 1 else 0));
      RootStep(H, L, right);
    }
  }

  lemma {:induction false} SidesGiveIndex(path: seq<AuditNode>, m: nat, n: nat)
    requires m < n && HasSides(path, Sides(m, n))
    ensures LeafIndex(path, n) == m
    decreases n
  {
    if n > 1 {
      var k := SplitPoint(n);
      SidesGiveIndex(path[..|path| - 1], NearIndex(m, n), if m < k then k else n - k);
    }
  }

  // ----- binding of a leaf hash at a known index

  /** Follows the path of leaf m down from the root to the first differing hash input. */
  function IndexCollision(H: HashFn, m: nat, L: seq<Hash>, leaf: Hash, path: seq<AuditNode>): Inputs
    requires m < |L|
    decreases |L|
  {
    if |L| == 1 || path == [] then Inputs([], [])
    else
      var p := TopInputs(H, L, leaf, path);
      if p.x != p.y then p
      else IndexCollision(H, NearIndex(m, |L|), Near(L, m < SplitPoint(|L|)), leaf, path[..|path| - 1])
  }

  /** The input hashed at the root end of the path, and the one hashed at the root of the tree. */
  function TopInputs(H: HashFn, L: seq<Hash>, leaf: Hash, path: seq<AuditNode>): Inputs
    requires |L| >= 2 && path != []
  {
    Inputs(StepInput(FoldPath(H, leaf, path[..|path| - 1]), path[|path| - 1]),
           NodeInput(TreeHash(Node(H), Near(L, true)), TreeHash(Node(H), Far(L, true))))
  }

  lemma TopHashes(H: HashFn, L: seq<Hash>, leaf: Hash, path: seq<AuditNode>)
    requires |L| >= 2 && path != []
    ensures H(TopInputs(H, L, leaf, path).x) == FoldPath(H, leaf, path)
    ensures H(TopInputs(H, L, leaf, path).y) == TreeHash(Node(H), L)
  {
  }

  lemma StepInputInjective(inner: Hash, step: AuditNode, left: Hash, right: Hash)
    requires StepInput(inner, step) == NodeInput(left, right)
    ensures inner == (if step.Right() then left else right) && step.sibling == (if step.Right() then right else left)
  {
    if step.Right() {
      NodeInputInjective(inner, step.sibling, left, right);
    } else {
      NodeInputInjective(step.sibling, inner, left, right);
    }
  }

  lemma SameStepsAppend(path: seq<AuditNode>, q: seq<AuditNode>, sibling: Hash, right: bool)
    requires path != [] && SameSteps(path[..|path| - 1], q)
    requires path[|path| - 1].sibling == sibling && path[|path| - 1].Right() == right
    ensures SameSteps(path, q + [AuditNode(sibling, if right then 1 else 0)])
  {
  }

  /** A path with the sides of index m that reaches the root carries leaf m and its siblings. */
  lemma {:induction false} IndexBinding(H: HashFn, m: nat, L: seq<Hash>, leaf: Hash, path: seq<AuditNode>)
    requires m < |L| && HasSides(path, Sides(m, |L|))
    requires FoldPath(H, leaf, path) == TreeHash(Node(H), L)
    ensures (leaf == L[m] && SameSteps(path, Path(H, m, L))) || Collides(H, IndexCollision(H, m, L, leaf, path))
    decreases |L|
  {
    if |L| > 1 {
      var right, i := m < SplitPoint(|L|), NearIndex(m, |L|);
      var rest, step := path[..|path| - 1], path[|path| - 1];
      var near, far := Near(L, right), Far(L, right);
      assert step.Right() == right && HasSides(rest, Sides(i, |near|));
      TopHashes(H, L, leaf, path);
      var p := TopInputs(H, L, leaf, path);
      if p.x == p.y {
        StepInputInjective(FoldPath(H, leaf, rest), step, TreeHash(Node(H), Near(L, true)),
                           TreeHash(Node(H), Far(L, true)));
        IndexBinding(H, i, near, leaf, rest);
        if SameSteps(rest, Path(H, i, near)) {
          SameStepsAppend(path, Path(H, i, near), TreeHash(Node(H), far), right);
        }
      }
    }
  }

  // ----- binding of an entry, whatever the path

  /** Follows any path down from the root of D to the first differing hash input. */
  function EntryCollision(H: HashFn, D: seq<Data>, d: Data, path: seq<AuditNode>): Inputs
    decreases |path|
  {
    if path == [] then Inputs(LeafInput(d), RootInput(H, D))
    else
      var rest, step := path[..|path| - 1], path[|path| - 1];
      var given := StepInput(FoldPath(H, LeafHash(H, d), rest), step);
      if |D| < 2 || given != RootInput(H, D) then Inputs(given, RootInput(H, D))
      else EntryCollision(H, Near(D, step.Right()), d, rest)
  }

  /** The path is the RFC path of an index that holds the entry. */
  ghost predicate IsPathOf(H: HashFn, D: seq<Data>, d: Data, path: seq<AuditNode>) {
    |D| >= 1 && var m := LeafIndex(path, |D|); D[m] == d && SameSteps(path, Path(H, m, LeafHashes(H, D)))
  }

  lemma LeafIndexOfHalf<T>(path: seq<AuditNode>, s: seq<T>)
    requires |s| >= 2 && path != []
    ensures var right, m := path[|path| - 1].Right(), LeafIndex(path, |s|);
            (m < SplitPoint(|s|) <==> right) &&
            NearIndex(m, |s|) == LeafIndex(path[..|path| - 1], |Near(s, right)|) &&
            s[m] == Near(s, right)[NearIndex(m, |s|)]
  {
  }

  lemma HalvesOfLeafHashes(H: HashFn, D: seq<Data>, right: bool)
    requires |D| >= 2
    ensures Near(LeafHashes(H, D), right) == LeafHashes(H, Near(D, right))
    ensures TreeHash(Node(H), Far(LeafHashes(H, D), right)) == MTH(H, Far(D, right))
  {
    assert Far(LeafHashes(H, D), right) == LeafHashes(H, Far(D, right));
    TreeHashOfLeafHashes(H, Far(D, right));
  }

  lemma IsPathOfHalf(H: HashFn, D: seq<Data>, d: Data, path: seq<AuditNode>)
    requires |D| >= 2 && path != []
    requires var step := path[|path| - 1];
             IsPathOf(H, Near(D, step.Right()), d, path[..|path| - 1]) &&
             step.sibling == MTH(H, Far(D, step.Right()))
    ensures IsPathOf(H, D, d, path)
  {
    var right, L, m := path[|path| - 1].Right(), LeafHashes(H, D), LeafIndex(path, |D|);
    HalvesOfLeafHashes(H, D, right);
    LeafIndexOfHalf(path, D);
    SameStepsAppend(path, Path(H, NearIndex(m, |D|), Near(L, right)), TreeHash(Node(H), Far(L, right)), right);
  }

  /** If `verify` accepts the hash of an entry against the root of D, then D holds the entry at
      the index the path leads to and the path is the RFC path of that index, or the extractor
      returns a collision. Nothing is required of the length or the sides of the path. */
  lemma {:induction false} EntryBinding(H: HashFn, D: seq<Data>, d: Data, path: seq<AuditNode>)
    requires FoldPath(H, LeafHash(H, d), path) == ComputeRoot(H, LeafHashes(H, D))
    ensures IsPathOf(H, D, d, path) || Collides(H, EntryCollision(H, D, d, path))
    decreases |path|
  {
    RootIsMTH(H, D);
    RootInputTag(H, D);
    if path == [] {
      assert LeafInput(d)[0] == 0;
      if |D| == 1 && LeafInput(d) == RootInput(H, D) { LeafInputInjective(d, D[0]); }
    } else {
      var rest, step := path[..|path| - 1], path[|path| - 1];
      var inner := FoldPath(H, LeafHash(H, d), rest);
      assert StepInput(inner, step)[0] == 1;
      if |D| >= 2 && StepInput(inner, step) == RootInput(H, D) {
        var k := SplitPoint(|D|);
        StepInputInjective(inner, step, MTH(H, D[..k]), MTH(H, D[k..]));
        var near := Near(D, step.Right());
        RootIsMTH(H, near);
        EntryBinding(H, near, d, rest);
        if IsPathOf(H, near, d, rest) { IsPathOfHalf(H, D, d, path); }
      }
    }
  }

  /** The converse of EntryBinding. */
  lemma EntryAccepted(H: HashFn, D: seq<Data>, m: nat, path: seq<AuditNode>)
    requires m < |D| && SameSteps(path, Path(H, m, LeafHashes(H, D)))
    ensures FoldPath(H, LeafHash(H, D[m]), path) == ComputeRoot(H, LeafHashes(H, D))
    ensures IsPathOf(H, D, D[m], path) && LeafIndex(path, |D|) == m
  {
    var L := LeafHashes(H, D);
    RootIsTreeHash(H, L);
    PathReachesRoot(H, m, L);
    PathHasSides(H, m, L);
    FoldSameSteps(H, L[m], path, Path(H, m, L));
    SidesGiveIndex(path, m, |D|);
  }
}
