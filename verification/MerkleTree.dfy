/** The Merkle tree hash of the transparency log (libs/job_aipkg/job_aipkg_merkle.cpp).

    The cryptographic hash is a parameter `H`, so every statement holds for all hash
    functions. Binding is stated with explicit extractors: either the two hashed objects are
    equal, or a given function returns two different inputs that `H` maps to one value. */
module MerkleTree {
  import opened Bytes
  import opened PowersOfTwo

  type Bytes32 = h: seq<Byte> | |h| == 32 witness Zeros(32)

  /** `Hash32` */
  datatype Hash = Hash(bytes: Bytes32)

  type HashFn = seq<Byte> -> Hash
  type Data = seq<Byte>

  /** How two child hashes make the parent hash. Trees of leaf hashes depend on `H` only
      through this function. */
  type NodeFn = (Hash, Hash) -> Hash

  function Zeros(n: nat): (r: seq<Byte>)
    ensures |r| == n
  {
    if n == 0 then [] else [0] + Zeros(n - 1)
  }

  /** `Hash32{}` */
  const ZERO_HASH: Hash := Hash(Zeros(32))

  lemma {:induction false} ZeroByte(n: nat, i: nat)
    requires i < n
    ensures Zeros(n)[i] == 0
  {
    if i > 0 { ZeroByte(n - 1, i - 1); }
  }

  /** Every byte of the value-initialised hash is zero. */
  lemma ZeroHashBytes(i: nat)
    requires i < 32
    ensures ZERO_HASH.bytes[i] == 0
  {
    ZeroByte(32, i);
  }

  function LeafInput(data: Data): seq<Byte> { [0] + data }

  function NodeInput(left: Hash, right: Hash): seq<Byte> { [1] + left.bytes + right.bytes }

  function LeafHash(H: HashFn, data: Data): Hash { H(LeafInput(data)) }

  function NodeHash(H: HashFn, left: Hash, right: Hash): Hash { H(NodeInput(left, right)) }

  function Node(H: HashFn): NodeFn { (left, right) => NodeHash(H, left, right) }

  function LeafHashes(H: HashFn, D: seq<Data>): (r: seq<Hash>)
    ensures |r| == |D|
  {
    seq(|D|, i requires 0 <= i < |D| => LeafHash(H, D[i]))
  }

  /** MTH of section 2.1 of RFC 6962, over the log entries themselves. */
  function MTH(H: HashFn, D: seq<Data>): Hash
    decreases |D|
  {
    H(RootInput(H, D))
  }

  /** The byte string whose hash is the root of D. */
  function RootInput(H: HashFn, D: seq<Data>): seq<Byte>
    decreases |D|, 0
  {
    if |D| == 0 then []
    else if |D| == 1 then LeafInput(D[0])
    else
      var k := SplitPoint(|D|);
      NodeInput(MTH(H, D[..k]), MTH(H, D[k..]))
  }

  /** MTH as a function of the leaf hashes of a non-empty tree. */
  function TreeHash(node: NodeFn, L: seq<Hash>): Hash
    requires |L| >= 1
    decreases |L|
  {
    if |L| == 1 then L[0]
    else
      var k := SplitPoint(|L|);
      node(TreeHash(node, L[..k]), TreeHash(node, L[k..]))
  }

  /** `computeSubtreeRoot`: the recursion over (start, count). */
  function ComputeSubtreeRoot(node: NodeFn, leaves: seq<Hash>, start: nat, count: nat): Hash
    requires count >= 1 && start + count <= |leaves|
    decreases count
  {
    if count == 1 then leaves[start]
    else
      var k := SplitPoint(count);
      node(ComputeSubtreeRoot(node, leaves, start, k), ComputeSubtreeRoot(node, leaves, start + k, count - k))
  }

  /** `computeRoot` */
  function ComputeRoot(H: HashFn, leaves: seq<Hash>): Hash {
    if |leaves| == 0 then H([]) else ComputeSubtreeRoot(Node(H), leaves, 0, |leaves|)
  }

  lemma TreeHashOfHalves(node: NodeFn, L: seq<Hash>, left: seq<Hash>, right: seq<Hash>)
    requires |left| >= 1 && |right| >= 1 && L == left + right && SplitPoint(|L|) == |left|
    ensures TreeHash(node, L) == node(TreeHash(node, left), TreeHash(node, right))
  {
    assert L[..|left|] == left && L[|left|..] == right;
  }

  lemma {:induction false} SubtreeRootIsTreeHash(node: NodeFn, leaves: seq<Hash>, start: nat, L: seq<Hash>)
    requires |L| >= 1 && start + |L| <= |leaves| && L == leaves[start..start + |L|]
    ensures ComputeSubtreeRoot(node, leaves, start, |L|) == TreeHash(node, L)
    decreases |L|
  {
    if |L| > 1 {
      var k := SplitPoint(|L|);
      SubtreeRootIsTreeHash(node, leaves, start, L[..k]);
      SubtreeRootIsTreeHash(node, leaves, start + k, L[k..]);
    }
  }

  lemma RootIsTreeHash(H: HashFn, leaves: seq<Hash>)
    requires |leaves| >= 1
    ensures ComputeRoot(H, leaves) == TreeHash(Node(H), leaves)
  {
    SubtreeRootIsTreeHash(Node(H), leaves, 0, leaves);
  }

  lemma {:induction false} TreeHashOfLeafHashes(H: HashFn, D: seq<Data>)
    requires |D| >= 1
    ensures TreeHash(Node(H), LeafHashes(H, D)) == MTH(H, D)
    decreases |D|
  {
    if |D| > 1 {
      var k := SplitPoint(|D|);
      TreeHashOfLeafHashes(H, D[..k]);
      TreeHashOfLeafHashes(H, D[k..]);
      TreeHashOfHalves(Node(H), LeafHashes(H, D), LeafHashes(H, D[..k]), LeafHashes(H, D[k..]));
    }
  }

  /** The C++ root over hashed leaves is the RFC 6962 tree hash of the entries. */
  lemma RootIsMTH(H: HashFn, D: seq<Data>)
    ensures ComputeRoot(H, LeafHashes(H, D)) == MTH(H, D)
  {
    if |D| >= 1 {
      RootIsTreeHash(H, LeafHashes(H, D));
      TreeHashOfLeafHashes(H, D);
    }
  }

  /** The equations of section 2.1 of RFC 6962, prefixes and argument order written out: the split k is
      the power of two with k < n <= 2k. */
  lemma {:induction false} MthEquations(H: HashFn, D: seq<Data>, k: nat)
    ensures |D| == 0 ==> MTH(H, D) == H([])
    ensures |D| == 1 ==> MTH(H, D) == H([0x00] + D[0])
    ensures |D| >= 2 && IsPow2(k) && k < |D| <= 2 * k ==>
              MTH(H, D) == H([0x01] + MTH(H, D[..k]).bytes + MTH(H, D[k..]).bytes)
  {
    if |D| >= 2 && IsPow2(k) && k < |D| <= 2 * k { SplitPointUnique(|D|, k); }
  }

  // ----- binding

  datatype Inputs = Inputs(x: seq<Byte>, y: seq<Byte>)

  predicate Collides(H: HashFn, p: Inputs) { p.x != p.y && H(p.x) == H(p.y) }

  lemma NodeInputInjective(a: Hash, b: Hash, c: Hash, d: Hash)
    requires NodeInput(a, b) == NodeInput(c, d)
    ensures a == c && b == d
  {
    assert a.bytes == NodeInput(a, b)[1..33] == c.bytes;
    assert b.bytes == NodeInput(a, b)[33..] == d.bytes;
  }

  lemma LeafInputInjective(d: Data, e: Data)
    requires LeafInput(d) == LeafInput(e)
    ensures d == e
  {
    assert d == LeafInput(d)[1..] == LeafInput(e)[1..];
  }

  /** The prefix byte tells the empty log, a single entry and a larger log apart. */
  lemma RootInputTag(H: HashFn, D: seq<Data>)
    ensures |D| == 0 <==> RootInput(H, D) == []
    ensures |D| == 1 <==> RootInput(H, D) != [] && RootInput(H, D)[0] == 0
    ensures |D| >= 2 <==> RootInput(H, D) != [] && RootInput(H, D)[0] == 1
  {
    if |D| >= 2 {
      var k := SplitPoint(|D|);
      assert NodeInput(MTH(H, D[..k]), MTH(H, D[k..]))[0] == 1;
    }
  }

  /** Walks down two trees with equal roots to the first place where the hashed inputs differ. */
  function RootCollision(H: HashFn, D: seq<Data>, E: seq<Data>): Inputs
    decreases |D|
  {
    if RootInput(H, D) != RootInput(H, E) || |D| < 2 || |E| < 2 then
      Inputs(RootInput(H, D), RootInput(H, E))
    else
      var k, j := SplitPoint(|D|), SplitPoint(|E|);
      if D[..k] != E[..j] then RootCollision(H, D[..k], E[..j])
      else RootCollision(H, D[k..], E[j..])
  }

  /** Equal roots mean equal logs, of whatever lengths, or an explicit collision. */
  lemma {:induction false} RootBinding(H: HashFn, D: seq<Data>, E: seq<Data>)
    requires ComputeRoot(H, LeafHashes(H, D)) == ComputeRoot(H, LeafHashes(H, E))
    ensures D == E || Collides(H, RootCollision(H, D, E))
  {
    RootIsMTH(H, D);
    RootIsMTH(H, E);
    MthBinding(H, D, E);
  }

  lemma {:induction false} MthBinding(H: HashFn, D: seq<Data>, E: seq<Data>)
    requires MTH(H, D) == MTH(H, E)
    ensures D == E || Collides(H, RootCollision(H, D, E))
    decreases |D|
  {
    if RootInput(H, D) == RootInput(H, E) {
      if |D| >= 2 && |E| >= 2 {
        var k, j := SplitPoint(|D|), SplitPoint(|E|);
        NodeInputInjective(MTH(H, D[..k]), MTH(H, D[k..]), MTH(H, E[..j]), MTH(H, E[j..]));
        if D[..k] != E[..j] {
          MthBinding(H, D[..k], E[..j]);
        } else {
          MthBinding(H, D[k..], E[j..]);
          assert D == D[..k] + D[k..];
          assert E == E[..j] + E[j..];
        }
      } else if |D| == 1 && |E| == 1 {
        LeafInputInjective(D[0], E[0]);
      } else {
        RootInputTag(H, D);
        RootInputTag(H, E);
      }
    }
  }
}
