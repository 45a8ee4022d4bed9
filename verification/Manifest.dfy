/**
  The manifest script's Merkle root: file digests are sorted, then reduced without tags.
 */
module Manifest {
  import opened Utf8
  import opened Merkle

  // ---------------------------------------------------------------- sorting

  predicate AtMost(a: Digest, b: Digest) {
    !LexLess(b, a)
  }

  predicate Sorted(s: seq<Digest>) {
    forall i, j {:trigger AtMost(s[i], s[j])} :: 0 <= i < j < |s| ==> AtMost(s[i], s[j])
  }

  function Insert(x: Digest, s: seq<Digest>): (r: seq<Digest>)
    ensures multiset(r) == multiset([x]) + multiset(s)
  {
    if s == [] then [x]
    else if AtMost(x, s[0]) then [x] + s
    else
      assert s == [s[0]] + s[1..];
      [s[0]] + Insert(x, s[1..])
  }

  lemma AtMostTransitive(a: Digest, b: Digest, c: Digest)
    requires AtMost(a, b) && AtMost(b, c)
    ensures AtMost(a, c)
  {
    LexTrichotomy(a, b);
    LexTrichotomy(b, c);
    LexTrichotomy(a, c);
    if LexLess(a, b) && LexLess(b, c) {
      LexTransitive(a, b, c);
    }
  }

  /** A sequence is sorted when its first element is at most all others, and these are sorted. */
  lemma SortedCons(x: Digest, s: seq<Digest>)
    ensures Sorted([x] + s) <==> Sorted(s) && forall y :: y in s ==> AtMost(x, y)
  {
    var c := [x] + s;
    if Sorted(c) {
      forall i, j | 0 <= i < j < |s| ensures AtMost(s[i], s[j]) {
        assert AtMost(c[i + 1], c[j + 1]);
      }
      forall y | y in s ensures AtMost(x, y) {
        var i :| 0 <= i < |s| && s[i] == y;
        assert AtMost(c[0], c[i + 1]);
      }
    }
    if Sorted(s) && forall y :: y in s ==> AtMost(x, y) {
      forall i, j | 0 <= i < j < |c| ensures AtMost(c[i], c[j]) {
        assert c[j] == s[j - 1] && s[j - 1] in s;
        if i > 0 {
          assert AtMost(s[i - 1], s[j - 1]);
        }
      }
    }
  }

  lemma {:induction false} InsertSorted(x: Digest, s: seq<Digest>)
    requires Sorted(s)
    ensures Sorted(Insert(x, s))
  {
    if s == [] {
    } else {
      assert s == [s[0]] + s[1..];
      SortedCons(s[0], s[1..]);
      LexTrichotomy(x, s[0]);
      if AtMost(x, s[0]) {
        forall y | y in s ensures AtMost(x, y) {
          if y != s[0] {
            assert y in s[1..];
            AtMostTransitive(x, s[0], y);
          }
        }
        SortedCons(x, s);
      } else {
        InsertSorted(x, s[1..]);
        forall y | y in Insert(x, s[1..]) ensures AtMost(s[0], y) {
          assert y in multiset([x]) + multiset(s[1..]);
        }
        SortedCons(s[0], Insert(x, s[1..]));
      }
    }
  }

  /** `sorted(...)`. */
  function Sort(s: seq<Digest>): (r: seq<Digest>)
    ensures Sorted(r)
    ensures multiset(r) == multiset(s)
  {
    if s == [] then [] else
    InsertSorted(s[0], Sort(s[1..]));
    assert s == [s[0]] + s[1..];
    Insert(s[0], Sort(s[1..]))
  }

  lemma HeadIsLeast(s: seq<Digest>, y: Digest)
    requires Sorted(s) && y in s
    ensures AtMost(s[0], y)
    ensures Sorted(s[1..])
  {
    assert s == [s[0]] + s[1..];
    SortedCons(s[0], s[1..]);
    LexTrichotomy(s[0], s[0]);
  }

  /** Two sorted sequences of the same elements are equal. */
  lemma {:induction false} SortedUnique(a: seq<Digest>, b: seq<Digest>)
    requires Sorted(a) && Sorted(b) && multiset(a) == multiset(b)
    ensures a == b
  {
    assert |multiset(a)| == |a| && |multiset(b)| == |b|;
    if a != [] {
      SameHead(a, b);
      RemoveHead(a);
      RemoveHead(b);
      SortedUnique(a[1..], b[1..]);
    }
  }

  lemma SameHead(a: seq<Digest>, b: seq<Digest>)
    requires Sorted(a) && Sorted(b) && multiset(a) == multiset(b) && a != [] && b != []
    ensures a[0] == b[0] && Sorted(a[1..]) && Sorted(b[1..])
  {
    assert a[0] in multiset(b) && b[0] in multiset(a);
    HeadIsLeast(a, b[0]);
    HeadIsLeast(b, a[0]);
    LexTrichotomy(a[0], b[0]);
  }

  lemma RemoveHead(s: seq<Digest>)
    requires s != []
    ensures s == [s[0]] + s[1..] && multiset(s[1..]) == multiset(s) - multiset{s[0]}
  {
    assert s == [s[0]] + s[1..];
  }

  // ---------------------------------------------------------------- the root

  function PairInput(l: Bytes, r: Bytes): Bytes {
    l + r
  }

  function PlainNode(h: Hash): Node {
    (l: Digest, r: Digest) => h(PairInput(l, r))
  }

  function ManifestRoot(digests: seq<Digest>, h: Hash): Digest {
    if digests == [] then ZERO_DIGEST else
    assert |multiset(Sort(digests))| == |multiset(digests)|;
    LoopRoot(Sort(digests), PlainNode(h))
  }

  method ComputeManifestRoot(digests: seq<Digest>, h: Hash) returns (root: Digest, ghost calls: nat)
    ensures root == ManifestRoot(digests, h)
    ensures calls == if digests == [] then 0 else |digests| - 1
  {
    if digests == [] {
      return ZERO_DIGEST, 0;
    }
    var level := Sort(digests);
    assert |multiset(level)| == |multiset(digests)|;
    root, calls := RunLoop(level, PlainNode(h));
  }

  /** The tree over a list of digests, split as in RFC 6962, with the left digest before the right one. */
  function PairTree(digests: seq<Digest>, h: Hash): Digest
    requires digests != []
    decreases |digests|
  {
    if |digests| == 1 then digests[0]
    else
      var k := SplitPoint(|digests|);
      h(PairTree(digests[..k], h) + PairTree(digests[k..], h))
  }

  lemma {:induction false} TreeHashIsPairTree(digests: seq<Digest>, h: Hash)
    requires digests != []
    ensures TreeHash(digests, PlainNode(h)) == PairTree(digests, h)
    decreases |digests|
  {
    if |digests| > 1 {
      var k := SplitPoint(|digests|);
      TreeHashIsPairTree(digests[..k], h);
      TreeHashIsPairTree(digests[k..], h);
      PlainPair(PairTree(digests[..k], h), PairTree(digests[k..], h), h);
    }
  }

  lemma PlainPair(l: Digest, r: Digest, h: Hash)
    ensures PlainNode(h)(l, r) == h(l + r)
  {
    assert PairInput(l, r) == l + r;
  }

  /** No digest comes after a larger one. */
  ghost predicate Ascending(digests: seq<Digest>) {
    forall i, j {:trigger digests[i], digests[j]} ::
      0 <= i < j < |digests| ==> !LexLess(digests[j], digests[i])
  }

  lemma AscendingIsSort(digests: seq<Digest>, ascending: seq<Digest>)
    requires multiset(ascending) == multiset(digests) && Ascending(ascending)
    ensures ascending == Sort(digests)
  {
    assert Sorted(ascending);
    SortedUnique(ascending, Sort(digests));
  }

  /** The manifest root is the tree over the same digests in ascending byte order, and zero bytes for none. */
  lemma ManifestRootIsPairTree(digests: seq<Digest>, ascending: seq<Digest>, h: Hash)
    requires multiset(ascending) == multiset(digests) && Ascending(ascending)
    ensures digests != [] ==> ascending != [] && ManifestRoot(digests, h) == PairTree(ascending, h)
    ensures digests == [] ==> forall x :: x in ManifestRoot(digests, h) ==> x == 0
  {
    AscendingIsSort(digests, ascending);
    SortedRoot(digests, h);
  }

  lemma SortedRoot(digests: seq<Digest>, h: Hash)
    ensures digests != [] ==> Sort(digests) != [] && ManifestRoot(digests, h) == PairTree(Sort(digests), h)
    ensures digests == [] ==> forall x :: x in ManifestRoot(digests, h) ==> x == 0
  {
    SortLength(digests);
    if digests != [] {
      LoopIsPairTree(Sort(digests), h);
    }
  }

  lemma SortLength(s: seq<Digest>)
    ensures |Sort(s)| == |s|
  {
    assert |multiset(Sort(s))| == |multiset(s)|;
  }

  lemma LoopIsPairTree(digests: seq<Digest>, h: Hash)
    requires digests != []
    ensures LoopRoot(digests, PlainNode(h)) == PairTree(digests, h)
  {
    LoopIsTreeHash(digests, PlainNode(h));
    TreeHashIsPairTree(digests, h);
  }

  /** Only the multiset of digests matters: listing the files in another order never changes the root. */
  lemma OrderIrrelevant(a: seq<Digest>, b: seq<Digest>, h: Hash)
    requires multiset(a) == multiset(b)
    ensures ManifestRoot(a, h) == ManifestRoot(b, h)
  {
    SortedUnique(Sort(a), Sort(b));
    assert |multiset(a)| == |a| && |multiset(b)| == |b|;
  }

  /** All pairs that are hashed above a list of digests. */
  function PairInputs(leaves: seq<Digest>, h: Hash): set<Bytes>
    requires leaves != []
    decreases |leaves|
  {
    if |leaves| == 1 then {}
    else
      var k := SplitPoint(|leaves|);
      {PairInput(TreeHash(leaves[..k], PlainNode(h)), TreeHash(leaves[k..], PlainNode(h)))} + PairInputs(leaves[..k], h)
          + PairInputs(leaves[k..], h)
  }

  /** Different lists of one length with the same root contain a collision among the hashed pairs. */
  lemma {:induction false} ExtractPairCollision(a: seq<Digest>, b: seq<Digest>, h: Hash) returns (x: Bytes, y: Bytes)
    requires a != [] && |a| == |b| && a != b
    requires TreeHash(a, PlainNode(h)) == TreeHash(b, PlainNode(h))
    ensures Collision(h, x, y) && x in PairInputs(a, h) && y in PairInputs(b, h)
    decreases |a|
  {
    assert |a| > 1;
    var k := SplitPoint(|a|);
    var l1, r1 := TreeHash(a[..k], PlainNode(h)), TreeHash(a[k..], PlainNode(h));
    var l2, r2 := TreeHash(b[..k], PlainNode(h)), TreeHash(b[k..], PlainNode(h));
    x, y := PairInput(l1, r1), PairInput(l2, r2);
    if x == y {
      assert x[..32] == l1 && y[..32] == l2 && x[32..] == r1 && y[32..] == r2;
      assert a == a[..k] + a[k..] && b == b[..k] + b[k..];
      if a[..k] != b[..k] {
        x, y := ExtractPairCollision(a[..k], b[..k], h);
      } else {
        x, y := ExtractPairCollision(a[k..], b[k..], h);
      }
    }
  }

  /** For lists of equal length the root binds the multiset of digests. */
  lemma ManifestRootBinds(a: seq<Digest>, b: seq<Digest>, h: Hash)
    requires a != [] && |a| == |b| && ManifestRoot(a, h) == ManifestRoot(b, h)
    ensures multiset(a) == multiset(b) ||
            exists x, y :: Collision(h, x, y) && x in PairInputs(Sort(a), h) && y in PairInputs(Sort(b), h)
  {
    var sa, sb := Sort(a), Sort(b);
    assert |multiset(sa)| == |multiset(a)| && |multiset(sb)| == |multiset(b)|;
    assert |sa| == |a| && |sb| == |b|;
    LoopIsTreeHash(sa, PlainNode(h));
    LoopIsTreeHash(sb, PlainNode(h));
    if sa != sb {
      var x, y := ExtractPairCollision(sa, sb, h);
    }
  }

  /** Equal length is needed: without tags, every list has the root of the single digest that is its root. */
  lemma LengthIsNotBound(digests: seq<Digest>, h: Hash)
    requires digests != []
    ensures ManifestRoot([ManifestRoot(digests, h)], h) == ManifestRoot(digests, h)
    ensures |digests| > 1 ==> multiset([ManifestRoot(digests, h)]) != multiset(digests)
  {
    var root := ManifestRoot(digests, h);
    assert [root][1..] == [] && Sort([root]) == [root];
    assert |multiset([root])| == 1 && |multiset(digests)| == |digests|;
  }
}
