/**
  Merkle roots: the level-by-level loop with promotion of an odd last node, as the browser page
  (tagged, RFC 6962) and the manifest script (untagged, sorted) run it.

  The hash is a parameter with 32-byte results. Results about the tree shape hold for any way
  `node` of combining two digests.
 */
module Merkle {
  import opened Utf8

  const ZERO_BYTES: Bytes :=
      [0, 0, 0, 0, 0, 0, 0, 0, 0, 0, 0, 0, 0, 0, 0, 0, 0, 0, 0, 0, 0, 0, 0, 0, 0, 0, 0, 0, 0, 0, 0, 0]

  type Digest = d: Bytes | |d| == 32 witness ZERO_BYTES
  type Hash = Bytes -> Digest
  type Node = (Digest, Digest) -> Digest

  const ZERO_DIGEST: Digest := ZERO_BYTES

  // ---------------------------------------------------------------- the loop

  /** One pass over a level: neighbours are combined, an odd last node moves up unchanged. */
  function NextLevel(level: seq<Digest>, node: Node): (next: seq<Digest>)
    ensures |next| == (|level| + 1) / 2
    decreases |level|
  {
    if |level| <= 1 then level else [node(level[0], level[1])] + NextLevel(level[2..], node)
  }

  function LoopRoot(level: seq<Digest>, node: Node): Digest
    requires level != []
    decreases |level|
  {
    if |level| == 1 then level[0] else LoopRoot(NextLevel(level, node), node)
  }

  /** What is done, followed by the pass over the rest of the level, stays the pass over the whole level. */
  lemma PairDone(done: seq<Digest>, level: seq<Digest>, i: nat, node: Node)
    requires i + 1 < |level|
    ensures done + [node(level[i], level[i + 1])] + NextLevel(level[i + 2..], node)
            == done + NextLevel(level[i..], node)
  {
    var rest := level[i..];
    assert rest[0] == level[i] && rest[1] == level[i + 1] && rest[2..] == level[i + 2..];
  }

  lemma LastDone(done: seq<Digest>, level: seq<Digest>, i: nat, node: Node)
    requires i + 1 == |level|
    ensures done + [level[i]] + NextLevel(level[i + 1..], node) == done + NextLevel(level[i..], node)
  {
    assert level[i..] == [level[i]] && level[i + 1..] == [];
  }

  method ReduceLevel(level: seq<Digest>, node: Node) returns (next: seq<Digest>, ghost calls: nat)
    ensures next == NextLevel(level, node)
    ensures calls == |level| / 2
  {
    next, calls := [], 0;
    var i := 0;
    assert level[0..] == level;
    while i < |level|
      invariant 0 <= i <= |level|
      invariant i % 2 == 0 || i == |level|
      invariant calls == i / 2
      invariant next + NextLevel(level[i..], node) == NextLevel(level, node)
      decreases |level| - i
    {
      if i + 1 < |level| {
        PairDone(next, level, i, node);
        next, calls := next + [node(level[i], level[i + 1])], calls + 1;
        i := i + 2;
      } else {
        LastDone(next, level, i, node);
        next := next + [level[i]];
        i := i + 1;
      }
    }
  }

  method RunLoop(leaves: seq<Digest>, node: Node) returns (root: Digest, ghost calls: nat)
    requires leaves != []
    ensures root == LoopRoot(leaves, node)
    ensures calls == |leaves| - 1
  {
    var level := leaves;
    calls := 0;
    while |level| > 1
      invariant level != []
      invariant LoopRoot(level, node) == LoopRoot(leaves, node)
      invariant calls + |level| == |leaves|
      decreases |level|
    {
      ghost var spent;
      level, spent := ReduceLevel(level, node);
      calls := calls + spent;
    }
    root := level[0];
  }

  // ---------------------------------------------------------------- the tree of RFC 6962

  /** The largest power of two below `n`. */
  function SplitPoint(n: nat): (k: nat)
    requires n >= 2
    ensures 1 <= k < n
    ensures n <= 2 * k
    decreases n
  {
    if n == 2 then 1 else 2 * SplitPoint((n + 1) / 2)
  }

  predicate IsPowerOfTwo(k: nat)
    decreases k
  {
    k == 1 || (k > 1 && k % 2 == 0 && IsPowerOfTwo(k / 2))
  }

  /** The split point is the one of section 2.1: a power of two with `k < n <= 2k`. */
  lemma {:induction false} SplitPointIsPower(n: nat)
    requires n >= 2
    ensures IsPowerOfTwo(SplitPoint(n)) && SplitPoint(n) < n <= 2 * SplitPoint(n)
    decreases n
  {
    if n > 2 {
      SplitPointIsPower((n + 1) / 2);
    }
  }

  /** No other power of two lies there. */
  lemma {:induction false} PowersAreApart(j: nat, k: nat)
    requires IsPowerOfTwo(j) && IsPowerOfTwo(k) && j < k
    ensures 2 * j <= k
    decreases k
  {
    if j > 1 {
      PowersAreApart(j / 2, k / 2);
    }
  }

  lemma SplitPointUnique(n: nat, k: nat)
    requires n >= 2 && IsPowerOfTwo(k) && k < n <= 2 * k
    ensures k == SplitPoint(n)
  {
    SplitPointIsPower(n);
    if k < SplitPoint(n) {
      PowersAreApart(k, SplitPoint(n));
    } else if SplitPoint(n) < k {
      PowersAreApart(SplitPoint(n), k);
    }
  }

  /** The Merkle tree hash of section 2.1 of RFC 6962 over the hashed leaves. */
  function TreeHash(leaves: seq<Digest>, node: Node): Digest
    requires leaves != []
    decreases |leaves|
  {
    if |leaves| == 1 then leaves[0]
    else
      var k := SplitPoint(|leaves|);
      node(TreeHash(leaves[..k], node), TreeHash(leaves[k..], node))
  }

  /** A pass treats the two sides of an even cut separately. */
  lemma {:induction false} NextLevelConcat(a: seq<Digest>, b: seq<Digest>, node: Node)
    requires |a| % 2 == 0
    ensures NextLevel(a + b, node) == NextLevel(a, node) + NextLevel(b, node)
    decreases |a|
  {
    if a == [] {
      assert a + b == b;
    } else {
      assert (a + b)[0] == a[0] && (a + b)[1] == a[1] && (a + b)[2..] == a[2..] + b;
      NextLevelConcat(a[2..], b, node);
    }
  }

  /** Cutting a level at an even place cuts the next level in half that place. */
  lemma CutNextLevel(leaves: seq<Digest>, node: Node, h: nat)
    requires 2 * h <= |leaves|
    ensures h <= |NextLevel(leaves, node)|
    ensures NextLevel(leaves, node)[..h] == NextLevel(leaves[..2 * h], node)
    ensures NextLevel(leaves, node)[h..] == NextLevel(leaves[2 * h..], node)
  {
    var a, b := leaves[..2 * h], leaves[2 * h..];
    assert leaves == a + b;
    NextLevelConcat(a, b, node);
    var na, nb := NextLevel(a, node), NextLevel(b, node);
    assert |na| == h;
    assert (na + nb)[..h] == na && (na + nb)[h..] == nb;
  }

  /** One pass of the loop does not change the tree hash. */
  lemma {:induction false} PassKeepsTreeHash(leaves: seq<Digest>, node: Node)
    requires leaves != []
    ensures TreeHash(NextLevel(leaves, node), node) == TreeHash(leaves, node)
    decreases |leaves|
  {
    if |leaves| == 2 {
      PairHash(leaves, node);
    } else if |leaves| > 2 {
      var h := SplitPoint((|leaves| + 1) / 2);
      CutNextLevel(leaves, node, h);
      PassKeepsTreeHash(leaves[..2 * h], node);
      PassKeepsTreeHash(leaves[2 * h..], node);
    }
  }

  lemma PairHash(leaves: seq<Digest>, node: Node)
    requires |leaves| == 2
    ensures TreeHash(NextLevel(leaves, node), node) == TreeHash(leaves, node)
  {
    assert leaves[..1] == [leaves[0]] && leaves[1..] == [leaves[1]];
    assert leaves[2..] == [];
    assert NextLevel(leaves, node) == [node(leaves[0], leaves[1])];
  }

  /** The bottom-up loop computes the recursive tree hash. */
  lemma {:induction false} LoopIsTreeHash(leaves: seq<Digest>, node: Node)
    requires leaves != []
    ensures LoopRoot(leaves, node) == TreeHash(leaves, node)
    decreases |leaves|
  {
    if |leaves| > 1 {
      PassKeepsTreeHash(leaves, node);
      LoopIsTreeHash(NextLevel(leaves, node), node);
    }
  }

  // ---------------------------------------------------------------- the browser page: tagged hashing

  function LeafInput(leaf: Bytes): Bytes {
    [0x00] + leaf
  }

  function NodeInput(l: Digest, r: Digest): Bytes {
    [0x01] + l + r
  }

  function TaggedNode(h: Hash): Node {
    (l: Digest, r: Digest) => h(NodeInput(l, r))
  }

  function HashLeaves(leaves: seq<Bytes>, h: Hash): (r: seq<Digest>)
    ensures |r| == |leaves|
  {
    seq<Digest>(|leaves|, i requires 0 <= i < |leaves| => h(LeafInput(leaves[i])))
  }

  /** The answer of `merkleRoot`; the leaves are the encoded strings. */
  function MerkleRoot(leaves: seq<Bytes>, h: Hash): Digest {
    if leaves == [] then ZERO_DIGEST else LoopRoot(HashLeaves(leaves, h), TaggedNode(h))
  }

  method ComputeMerkleRoot(leaves: seq<Bytes>, h: Hash) returns (root: Digest)
    ensures root == MerkleRoot(leaves, h)
  {
    if leaves == [] {
      return ZERO_DIGEST;
    }
    ghost var calls;
    root, calls := RunLoop(HashLeaves(leaves, h), TaggedNode(h));
  }

  /**
    MTH as section 2.1 of RFC 6962 writes it: the hash of 0x00 and the leaf for one leaf, and above it the
    hash of 0x01, the left and the right half. It shares nothing with the loop.
   */
  function MTH(leaves: seq<Bytes>, h: Hash): Digest
    requires leaves != []
    decreases |leaves|
  {
    if |leaves| == 1 then h([0x00] + leaves[0])
    else
      var k := SplitPoint(|leaves|);
      h([0x01] + MTH(leaves[..k], h) + MTH(leaves[k..], h))
  }

  lemma {:induction false} TreeHashIsMTH(leaves: seq<Bytes>, h: Hash)
    requires leaves != []
    ensures TreeHash(HashLeaves(leaves, h), TaggedNode(h)) == MTH(leaves, h)
    decreases |leaves|
  {
    var digests := HashLeaves(leaves, h);
    if |leaves| == 1 {
      assert LeafInput(leaves[0]) == [0x00] + leaves[0];
    } else {
      var k := SplitPoint(|leaves|);
      assert digests[..k] == HashLeaves(leaves[..k], h);
      assert digests[k..] == HashLeaves(leaves[k..], h);
      TreeHashIsMTH(leaves[..k], h);
      TreeHashIsMTH(leaves[k..], h);
      TaggedPair(MTH(leaves[..k], h), MTH(leaves[k..], h), h);
    }
  }

  lemma TaggedPair(l: Digest, r: Digest, h: Hash)
    ensures TaggedNode(h)(l, r) == h([0x01] + l + r)
  {
    assert NodeInput(l, r) == [0x01] + l + r;
  }

  /** The page's root is the RFC 6962 Merkle tree hash of every non-empty list, and 32 zero bytes for the empty one. */
  lemma MerkleRootIsRfc6962(leaves: seq<Bytes>, h: Hash)
    ensures leaves != [] ==> MerkleRoot(leaves, h) == MTH(leaves, h)
    ensures leaves == [] ==> |MerkleRoot(leaves, h)| == 32 && forall x :: x in MerkleRoot(leaves, h) ==> x == 0
  {
    if leaves != [] {
      LoopIsTreeHash(HashLeaves(leaves, h), TaggedNode(h));
      TreeHashIsMTH(leaves, h);
    }
  }

  /** All byte strings that are hashed for the root of a list. */
  function HashInputs(leaves: seq<Bytes>, h: Hash): set<Bytes>
    requires leaves != []
    decreases |leaves|
  {
    if |leaves| == 1 then {LeafInput(leaves[0])}
    else
      var k := SplitPoint(|leaves|);
      {NodeInput(MTH(leaves[..k], h), MTH(leaves[k..], h))} + HashInputs(leaves[..k], h) + HashInputs(leaves[k..], h)
  }

  ghost predicate Collision(h: Hash, x: Bytes, y: Bytes) {
    x != y && h(x) == h(y)
  }

  lemma LeafInputInjective(a: Bytes, b: Bytes)
    ensures LeafInput(a) == LeafInput(b) ==> a == b
  {
    assert LeafInput(a)[1..] == a && LeafInput(b)[1..] == b;
  }

  lemma NodeInputInjective(l1: Digest, r1: Digest, l2: Digest, r2: Digest)
    requires NodeInput(l1, r1) == NodeInput(l2, r2)
    ensures l1 == l2 && r1 == r2
  {
    assert NodeInput(l1, r1)[1..33] == l1 && NodeInput(l2, r2)[1..33] == l2;
    assert NodeInput(l1, r1)[33..] == r1 && NodeInput(l2, r2)[33..] == r2;
  }

  /**
    Two different lists with the same root, of whatever lengths, give two different strings among
    those hashed for them that have the same digest.
   */
  lemma {:induction false} ExtractCollision(a: seq<Bytes>, b: seq<Bytes>, h: Hash) returns (x: Bytes, y: Bytes)
    requires a != [] && b != [] && a != b && MTH(a, h) == MTH(b, h)
    ensures Collision(h, x, y) && x in HashInputs(a, h) && y in HashInputs(b, h)
    decreases |a|
  {
    x := if |a| == 1 then LeafInput(a[0]) else NodeInput(MTH(a[..SplitPoint(|a|)], h), MTH(a[SplitPoint(|a|)..], h));
    y := if |b| == 1 then LeafInput(b[0]) else NodeInput(MTH(b[..SplitPoint(|b|)], h), MTH(b[SplitPoint(|b|)..], h));
    LeafInputInjective(a[0], b[0]);
    assert |a| == 1 ==> a == [a[0]];
    assert |b| == 1 ==> b == [b[0]];
    if x == y {
      assert x[0] == y[0];
      if |a| > 1 {
        var j, k := SplitPoint(|a|), SplitPoint(|b|);
        NodeInputInjective(MTH(a[..j], h), MTH(a[j..], h), MTH(b[..k], h), MTH(b[k..], h));
        assert a == a[..j] + a[j..] && b == b[..k] + b[k..];
        if a[..j] != b[..k] {
          x, y := ExtractCollision(a[..j], b[..k], h);
        } else {
          x, y := ExtractCollision(a[j..], b[k..], h);
        }
      }
    }
  }

  /** The root of the page binds its leaves. */
  lemma MerkleRootBinds(a: seq<Bytes>, b: seq<Bytes>, h: Hash)
    requires a != [] && b != [] && MerkleRoot(a, h) == MerkleRoot(b, h)
    ensures a == b || exists x, y :: Collision(h, x, y) && x in HashInputs(a, h) && y in HashInputs(b, h)
  {
    MerkleRootIsRfc6962(a, h);
    MerkleRootIsRfc6962(b, h);
    if a != b {
      var x, y := ExtractCollision(a, b, h);
    }
  }
}
