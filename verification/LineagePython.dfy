/**
  The Python lineage check: a recursion that copies the set of ids on the current path and has
  no memory across branches, with a budget on that set's size. It decides the same property as
  the TypeScript search.

  Python's own limit on nested calls is the parameter `frames`.
 */
module LineagePython {
  import opened Utf8
  import opened LineageGraph
  import TS = LineageTypeScript

  /** The digest of a bundle's sealed content; `None` for an unknown algorithm. */
  type ContentDigest = (string, Bundle) -> Option<string>

  /** Parents by id and content digest, as `verify_bundle` builds them. */
  type ParentMap = map<(string, string), Bundle>

  datatype Reason = MaxDepthExceeded | CycleDetected | ParentNotFound(id: string) | DigestMismatch(id: string)

  datatype Verdict = Valid | Invalid(reason: Reason) | RaisedDigestError | RaisedRecursionError

  function Check(b: Bundle, parents: ParentMap, digest: ContentDigest, maxDepth: int, visited: set<string>,
                 frames: nat): Verdict
    decreases frames, 1, 0
  {
    if frames == 0 then RaisedRecursionError
    else if b.refs == [] then Valid
    else if |visited| >= maxDepth then Invalid(MaxDepthExceeded)
    else
      var id := IdOf(b);
      if id != "" && id in visited then Invalid(CycleDetected)
      else CheckRefs(b.refs, parents, digest, maxDepth, if id != "" then visited + {id} else visited, frames)
  }

  function CheckRefs(refs: seq<ParentRef>, parents: ParentMap, digest: ContentDigest, maxDepth: int,
                     visited: set<string>, frames: nat): Verdict
    requires frames > 0
    decreases frames, 0, |refs|
  {
    if refs == [] then Valid else
    var r := refs[0];
    if (r.parentId, r.parentDigest) !in parents then Invalid(ParentNotFound(r.parentId)) else
    var parent := parents[(r.parentId, r.parentDigest)];
    match digest(r.digestAlg, parent)
    case None => RaisedDigestError
    case Some(d) =>
      if d != r.parentDigest then Invalid(DigestMismatch(r.parentId)) else
      var sub := Check(parent, parents, digest, maxDepth, visited, frames - 1);
      if !sub.Valid? then sub else CheckRefs(refs[1..], parents, digest, maxDepth, visited, frames)
  }

  /** `verify_lineage`: the set is extended in place, and copied for every recursive call. */
  method VerifyLineage(b: Bundle, parents: ParentMap, digest: ContentDigest, maxDepth: int, inherited: set<string>,
                       frames: nat)
      returns (verdict: Verdict)
    ensures verdict == Check(b, parents, digest, maxDepth, inherited, frames)
    decreases frames
  {
    if frames == 0 {
      return RaisedRecursionError;
    }
    if b.refs == [] {
      return Valid;
    }
    var visited := inherited;
    if |visited| >= maxDepth {
      return Invalid(MaxDepthExceeded);
    }
    var id := IdOf(b);
    if id != "" {
      if id in visited {
        return Invalid(CycleDetected);
      }
      visited := visited + {id};
    }
    var i := 0;
    assert b.refs[0..] == b.refs;
    while i < |b.refs|
      invariant 0 <= i <= |b.refs|
      invariant CheckRefs(b.refs[i..], parents, digest, maxDepth, visited, frames)
                == Check(b, parents, digest, maxDepth, inherited, frames)
    {
      var r := b.refs[i];
      assert b.refs[i..][0] == r && b.refs[i..][1..] == b.refs[i + 1..];
      if (r.parentId, r.parentDigest) !in parents {
        return Invalid(ParentNotFound(r.parentId));
      }
      var parent := parents[(r.parentId, r.parentDigest)];
      var computed := digest(r.digestAlg, parent);
      if computed.None? {
        return RaisedDigestError;
      }
      if computed.value != r.parentDigest {
        return Invalid(DigestMismatch(r.parentId));
      }
      var sub := VerifyLineage(parent, parents, digest, maxDepth, visited, frames - 1);
      if !sub.Valid? {
        return sub;
      }
      i := i + 1;
    }
    return Valid;
  }

  // ---------------------------------------------------------------- the parent map

  /** The map `verify_bundle` builds; `None` when the digest algorithm is unknown. */
  function ParentMapOf(bundles: seq<Bundle>, digest: ContentDigest, alg: string): Option<ParentMap> {
    if bundles == [] then Some(map[]) else
    var last := bundles[|bundles| - 1];
    match ParentMapOf(bundles[..|bundles| - 1], digest, alg)
    case None => None
    case Some(before) =>
      match digest(alg, last)
      case None => None
      case Some(d) => Some(before[(IdOf(last), d) := last])
  }

  method BuildParentMap(bundles: seq<Bundle>, digest: ContentDigest, alg: string) returns (parents: Option<ParentMap>)
    ensures parents == ParentMapOf(bundles, digest, alg)
  {
    var built: ParentMap := map[];
    var i := 0;
    while i < |bundles|
      invariant 0 <= i <= |bundles|
      invariant ParentMapOf(bundles[..i], digest, alg) == Some(built)
    {
      assert bundles[..i + 1][..i] == bundles[..i];
      var d := digest(alg, bundles[i]);
      if d.None? {
        NoPartialMap(bundles, digest, alg, i + 1);
        return None;
      }
      built := built[(IdOf(bundles[i]), d.value) := bundles[i]];
      i := i + 1;
    }
    assert bundles[..i] == bundles;
    return Some(built);
  }

  lemma {:induction false} NoPartialMap(bundles: seq<Bundle>, digest: ContentDigest, alg: string, n: nat)
    requires n <= |bundles| && ParentMapOf(bundles[..n], digest, alg).None?
    ensures ParentMapOf(bundles, digest, alg).None?
    decreases |bundles|
  {
    if n < |bundles| {
      assert bundles[..|bundles| - 1][..n] == bundles[..n];
      NoPartialMap(bundles[..|bundles| - 1], digest, alg, n);
    } else {
      assert bundles[..n] == bundles;
    }
  }

  /** For every list: the map fails when some digest does, and answers the last bundle of an id and digest. */
  lemma {:induction false} ParentMapIs(bundles: seq<Bundle>, digest: ContentDigest, alg: string)
    ensures ParentMapOf(bundles, digest, alg).Some?
            <==> forall i :: 0 <= i < |bundles| ==> digest(alg, bundles[i]).Some?
    ensures ParentMapOf(bundles, digest, alg).Some? ==>
              forall b, d :: ((IdOf(b), d) in ParentMapOf(bundles, digest, alg).value
                              && ParentMapOf(bundles, digest, alg).value[(IdOf(b), d)] == b)
                             <==> exists i :: LastOf(bundles, digest, alg, b, d, i)
  {
    if bundles != [] {
      var n := |bundles| - 1;
      var before, last := bundles[..n], bundles[n];
      ParentMapIs(before, digest, alg);
      assert bundles == before + [last];
      if ParentMapOf(bundles, digest, alg).Some? {
        forall b, d ensures (exists i :: LastOf(bundles, digest, alg, b, d, i))
                            <==> (if IdOf(b) == IdOf(last) && digest(alg, last) == Some(d) then b == last
                                  else exists i :: LastOf(before, digest, alg, b, d, i))
        {
          LastOfPush(before, last, digest, alg, b, d);
        }
      }
    }
  }

  /** Bundle number `i` is the last with its id and this digest. */
  ghost predicate LastOf(bundles: seq<Bundle>, digest: ContentDigest, alg: string, b: Bundle, d: string, i: int) {
    && 0 <= i < |bundles| && bundles[i] == b && digest(alg, b) == Some(d)
    && forall j :: i < j < |bundles| ==> !(IdOf(bundles[j]) == IdOf(b) && digest(alg, bundles[j]) == Some(d))
  }

  lemma LastOfPush(before: seq<Bundle>, last: Bundle, digest: ContentDigest, alg: string, b: Bundle, d: string)
    ensures (exists i :: LastOf(before + [last], digest, alg, b, d, i))
            <==> (if IdOf(b) == IdOf(last) && digest(alg, last) == Some(d) then b == last
                  else exists i :: LastOf(before, digest, alg, b, d, i))
  {
    var n, bundles := |before|, before + [last];
    if IdOf(b) == IdOf(last) && digest(alg, last) == Some(d) {
      assert b == last ==> LastOf(bundles, digest, alg, b, d, n);
      if i :| LastOf(bundles, digest, alg, b, d, i) {
        assert i < n ==> bundles[n] == last;
      }
    } else {
      if i :| LastOf(bundles, digest, alg, b, d, i) {
        forall j | i < j < n ensures !(IdOf(before[j]) == IdOf(b) && digest(alg, before[j]) == Some(d)) {
          assert before[j] == bundles[j];
        }
        assert LastOf(before, digest, alg, b, d, i);
      }
      if i :| LastOf(before, digest, alg, b, d, i) {
        assert LastOf(bundles, digest, alg, b, d, i);
      }
    }
  }

  /** Looking up by id and digest finds the bundle of that id when it has that digest, and nothing else. */
  ghost predicate MapsStore(parents: ParentMap, store: Store, digest: ContentDigest, alg: string) {
    && (forall id, d :: (id, d) in parents <==> id in store && digest(alg, store[id]) == Some(d))
    && (forall id, d :: (id, d) in parents ==> parents[(id, d)] == store[id])
  }

  lemma {:induction false} ParentMapIsIndex(bundles: seq<Bundle>, digest: ContentDigest, alg: string)
    requires DistinctIds(bundles)
    requires forall i :: 0 <= i < |bundles| ==> digest(alg, bundles[i]).Some?
    ensures ParentMapOf(bundles, digest, alg).Some?
    ensures MapsStore(ParentMapOf(bundles, digest, alg).value, IndexById(bundles), digest, alg)
  {
    if bundles != [] {
      var n := |bundles| - 1;
      var before, last := bundles[..n], bundles[n];
      ParentMapIsIndex(before, digest, alg);
      IndexByIdExact(before);
      assert IdOf(last) !in IndexById(before);
    }
  }

  // ---------------------------------------------------------------- one graph for both implementations

  /**
    The supplied bundles have ids of their own, all references name one algorithm, and each seal digest
    is the content digest. A supplied bundle may claim the root's id.
   */
  ghost predicate Comparable(root: Bundle, bundles: seq<Bundle>, digest: ContentDigest, alg: string) {
    && DistinctIds(bundles)
    && root.bundleId.Some? && root.bundleId.value != ""
    && (forall i :: 0 <= i < |bundles| ==>
          digest(alg, bundles[i]).Some? && bundles[i].sealDigest == digest(alg, bundles[i]))
    && (forall i :: 0 <= i < |bundles| ==> RefsUse(bundles[i], alg))
    && RefsUse(root, alg)
  }

  ghost predicate RefsUse(b: Bundle, alg: string) {
    forall i :: 0 <= i < |b.refs| ==> b.refs[i].digestAlg == alg
  }

  /** Resolution through the digest-keyed map is resolution by id and seal digest. */
  ghost predicate SameResolution(root: Bundle, store: Store, parents: ParentMap, digest: ContentDigest, alg: string) {
    && root.bundleId.Some? && root.bundleId.value != "" && Keyed(store) && "" !in store
    && (forall r: ParentRef {:trigger Resolves(store, r)} ::
          (r.parentId, r.parentDigest) in parents <==> Resolves(store, r))
    && (forall r: ParentRef {:trigger Resolves(store, r)} :: Resolves(store, r) ==>
          && parents[(r.parentId, r.parentDigest)] == store[r.parentId]
          && digest(alg, store[r.parentId]) == Some(r.parentDigest))
    && RefsUse(root, alg)
    && (forall k :: k in store ==> RefsUse(store[k], alg))
  }

  lemma ComparableResolution(root: Bundle, bundles: seq<Bundle>, digest: ContentDigest, alg: string)
    requires Comparable(root, bundles, digest, alg)
    ensures ParentMapOf(bundles, digest, alg).Some?
    ensures SameResolution(root, IndexById(bundles), ParentMapOf(bundles, digest, alg).value, digest, alg)
  {
    ParentMapIsIndex(bundles, digest, alg);
    IndexByIdExact(bundles);
    var store, parents := IndexById(bundles), ParentMapOf(bundles, digest, alg).value;
    forall k | k in store
      ensures store[k] in bundles && store[k].sealDigest == digest(alg, store[k]) && RefsUse(store[k], alg)
    {
      assert store[k] in store.Values;
      var i :| 0 <= i < |bundles| && bundles[i] == store[k];
    }
    forall r: ParentRef
      ensures (r.parentId, r.parentDigest) in parents <==> Resolves(store, r)
      ensures Resolves(store, r) ==> parents[(r.parentId, r.parentDigest)] == store[r.parentId]
    {
      assert (r.parentId, r.parentDigest) in parents
             <==> r.parentId in store && digest(alg, store[r.parentId]) == Some(r.parentDigest);
    }
  }

  // ---------------------------------------------------------------- one call

  /** What a call depends on besides the bundle, the ids on the path and the calls left. */
  datatype Run = Run(parents: ParentMap, digest: ContentDigest, maxDepth: int)

  ghost predicate Passes(b: Bundle, run: Run, visited: set<string>, frames: nat) {
    Check(b, run.parents, run.digest, run.maxDepth, visited, frames) == Valid
  }

  /** The reference resolves, and the parent passes in the recursive call. */
  ghost predicate ParentPasses(store: Store, r: ParentRef, run: Run, visited: set<string>, frames: nat)
    requires frames > 0
  {
    Resolves(store, r) && Passes(store[r.parentId], run, visited, frames - 1)
  }

  /** The loop succeeds exactly when every parent passes, with the ids that the loop started with. */
  lemma {:induction false} CheckRefsIff(root: Bundle, store: Store, run: Run, alg: string, refs: seq<ParentRef>,
                                        visited: set<string>, frames: nat)
    requires SameResolution(root, store, run.parents, run.digest, alg) && frames > 0
    requires forall i :: 0 <= i < |refs| ==> refs[i].digestAlg == alg
    ensures CheckRefs(refs, run.parents, run.digest, run.maxDepth, visited, frames) == Valid
            <==> forall i :: 0 <= i < |refs| ==> ParentPasses(store, refs[i], run, visited, frames)
    decreases |refs|
  {
    if refs != [] {
      CheckRefsIff(root, store, run, alg, refs[1..], visited, frames);
      assert Resolves(store, refs[0]) || !Resolves(store, refs[0]);
      assert refs == [refs[0]] + refs[1..];
    }
  }

  /** A call succeeds at once without references; otherwise it needs room, a new id, and all parents passing. */
  lemma PassesIff(root: Bundle, store: Store, run: Run, alg: string, b: Bundle, visited: set<string>, frames: nat)
    requires SameResolution(root, store, run.parents, run.digest, alg)
    requires RefsUse(b, alg) && b.bundleId.Some? && b.bundleId.value != ""
    ensures Passes(b, run, visited, frames) <==>
              && frames > 0
              && (b.refs == [] || (|visited| < run.maxDepth && b.bundleId.value !in visited))
              && forall i :: 0 <= i < |b.refs| ==>
                   ParentPasses(store, b.refs[i], run, visited + {b.bundleId.value}, frames)
  {
    if frames > 0 {
      CheckRefsIff(root, store, run, alg, b.refs, visited + {b.bundleId.value}, frames);
    }
  }

  lemma EndIsNamed(root: Bundle, store: Store, run: Run, alg: string, p: seq<string>)
    requires SameResolution(root, store, run.parents, run.digest, alg) && Keys(store, p)
    ensures var b := End(root, store, p); RefsUse(b, alg) && b.bundleId.Some? && b.bundleId.value != ""
  {
  }

  // ---------------------------------------------------------------- what a successful call has looked at

  /** The bundles of the path that have references claim different ids, and none of the given ones. */
  ghost predicate NewAlong(b: Bundle, store: Store, p: seq<string>, visited: set<string>)
    requires Keys(store, p)
  {
    && (forall j :: 0 <= j <= |p| && At(b, store, p, j).refs != [] ==> IdOf(At(b, store, p, j)) !in visited)
    && (forall i, j :: 0 <= i < j <= |p| && At(b, store, p, j).refs != [] ==>
          IdOf(At(b, store, p, i)) != IdOf(At(b, store, p, j)))
  }

  lemma NewBefore(b: Bundle, store: Store, p: seq<string>, visited: set<string>)
    requires Keys(store, p) && p != [] && Keys(store, p[1..]) && b.refs != [] && IdOf(b) !in visited
    requires NewAlong(store[p[0]], store, p[1..], visited + {IdOf(b)})
    ensures NewAlong(b, store, p, visited)
  {
    SuffixAt(b, store, p, 1);
    var t, q := store[p[0]], p[1..];
    forall j | 1 <= j <= |p| ensures At(b, store, p, j) == At(t, store, q, j - 1) {
      assert At(t, store, q, j - 1) == At(b, store, p, 1 + (j - 1));
    }
  }

  /** A successful call has resolved the references of every bundle it reaches, and compared their ids. */
  lemma {:induction false} PassesAlong(root: Bundle, store: Store, run: Run, alg: string, b: Bundle, p: seq<string>,
                                       visited: set<string>, frames: nat)
    requires SameResolution(root, store, run.parents, run.digest, alg)
    requires RefsUse(b, alg) && b.bundleId.Some? && b.bundleId.value != ""
    requires IsPath(b, store, p) && Passes(b, run, visited, frames)
    ensures AllResolve(store, End(b, store, p).refs) && NewAlong(b, store, p, visited)
    decreases |p|
  {
    PassesIff(root, store, run, alg, b, visited, frames);
    if p == [] {
      ParentsResolve(store, b, run, visited + {b.bundleId.value}, frames);
    } else {
      var t := store[p[0]];
      NextParent(b, store, p, run, visited + {b.bundleId.value}, frames);
      PassesAlong(root, store, run, alg, t, p[1..], visited + {b.bundleId.value}, frames - 1);
      NewBefore(b, store, p, visited);
      assert End(b, store, p) == End(t, store, p[1..]);
    }
  }

  lemma ParentsResolve(store: Store, b: Bundle, run: Run, visited: set<string>, frames: nat)
    requires frames > 0 && forall i :: 0 <= i < |b.refs| ==> ParentPasses(store, b.refs[i], run, visited, frames)
    ensures AllResolve(store, b.refs)
  {
    forall i | 0 <= i < |b.refs| ensures Resolves(store, b.refs[i]) {
      assert ParentPasses(store, b.refs[i], run, visited, frames);
    }
  }

  lemma NextParent(b: Bundle, store: Store, p: seq<string>, run: Run, visited: set<string>, frames: nat)
    requires frames > 0 && forall i :: 0 <= i < |b.refs| ==> ParentPasses(store, b.refs[i], run, visited, frames)
    requires IsPath(b, store, p) && p != []
    ensures b.refs != [] && IsPath(store[p[0]], store, p[1..]) && Passes(store[p[0]], run, visited, frames - 1)
  {
    assert Leads(At(b, store, p, 0), store, p[0]);
    var i :| 0 <= i < |b.refs| && b.refs[i].parentId == p[0] && Resolves(store, b.refs[i]);
    assert ParentPasses(store, b.refs[i], run, visited, frames);
    PathSuffix(b, store, p, 1);
  }

  /** So no key comes twice on a path, and the root's id comes again only at a bundle without references. */
  lemma NewIsTidy(root: Bundle, store: Store, p: seq<string>)
    requires Keyed(store) && root.bundleId.Some? && IsPath(root, store, p) && NewAlong(root, store, p, {})
    ensures NoRepeats(p)
    ensures p != [] && End(root, store, p).bundleId == root.bundleId ==> RootIdIsLeaf(root, store)
  {
    forall i, j | 0 <= i < j < |p| ensures p[i] != p[j] {
      assert Leads(At(root, store, p, i + 1), store, p[i + 1]);
      assert At(root, store, p, i + 1) == store[p[i]] && At(root, store, p, j + 1) == store[p[j]];
    }
    assert IdOf(At(root, store, p, 0)) == root.bundleId.value;
  }

  // ---------------------------------------------------------------- calls along a path

  /** The call that arrives at the end of the path succeeds, with the ids before it visited. */
  ghost predicate PassesAt(root: Bundle, store: Store, run: Run, p: seq<string>, frames: nat)
    requires Keys(store, p)
  {
    Passes(End(root, store, p), run, PathIds(root, store, p, |p|), frames)
  }

  // ---------------------------------------------------------------- which lineages pass

  /** The store has an entry of the root's id, and it has no references. */
  predicate RootIdIsLeaf(root: Bundle, store: Store) {
    root.bundleId.Some? && root.bundleId.value in store && store[root.bundleId.value].refs == []
  }

  /** A tidy lineage that comes back to the root's id at most at a bundle without references. */
  ghost predicate TidyButRoot(root: Bundle, store: Store) {
    Tidy(root, store) && (ReachesItself(root, store) ==> RootIdIsLeaf(root, store))
  }

  /** On such a lineage the call at every end succeeds. */
  lemma {:induction false} EndPasses(root: Bundle, store: Store, run: Run, alg: string, p: seq<string>, frames: nat)
    requires SameResolution(root, store, run.parents, run.digest, alg) && TidyButRoot(root, store)
    requires IsPath(root, store, p) && run.maxDepth >= |ClaimedIds(root, store)|
    requires frames > 0 && frames > |ClaimedIds(root, store)| - |p|
    ensures PassesAt(root, store, run, p, frames)
    decreases frames, 1
  {
    var b := End(root, store, p);
    EndIsNamed(root, store, run, alg, p);
    if b.refs != [] {
      NewIdAtEnd(root, store, p);
      forall i | 0 <= i < |b.refs|
        ensures ParentPasses(store, b.refs[i], run, PathIds(root, store, p, |p| + 1), frames) {
        ParentOfEndPasses(root, store, run, alg, p, i, frames);
      }
    }
    PassesIff(root, store, run, alg, b, PathIds(root, store, p, |p|), frames);
  }

  lemma ParentOfEndPasses(root: Bundle, store: Store, run: Run, alg: string, p: seq<string>, i: nat, frames: nat)
    requires SameResolution(root, store, run.parents, run.digest, alg) && TidyButRoot(root, store)
    requires IsPath(root, store, p) && run.maxDepth >= |ClaimedIds(root, store)| && i < |End(root, store, p).refs|
    requires Apart(root, store, p, |p| + 1) && frames > 0 && frames > |ClaimedIds(root, store)| - |p|
    ensures ParentPasses(store, End(root, store, p).refs[i], run, PathIds(root, store, p, |p| + 1), frames)
    decreases frames, 0
  {
    var r := End(root, store, p).refs[i];
    TidyStep(root, store, p, i);
    EndPasses(root, store, run, alg, p + [r.parentId], frames - 1);
    SameIds(root, store, p, r.parentId);
  }

  lemma TidyStep(root: Bundle, store: Store, p: seq<string>, i: nat)
    requires Tidy(root, store) && IsPath(root, store, p) && i < |End(root, store, p).refs|
    requires Apart(root, store, p, |p| + 1)
    ensures var r := End(root, store, p).refs[i];
            && Resolves(store, r) && IsPath(root, store, p + [r.parentId])
            && End(root, store, p + [r.parentId]) == store[r.parentId]
    ensures |p| + 1 <= |ClaimedIds(root, store)|
  {
    var r := End(root, store, p).refs[i];
    assert AllResolve(store, End(root, store, p).refs);
    assert Leads(End(root, store, p), store, r.parentId);
    ExtendPath(root, store, p, r.parentId);
    PathCount(root, store, p, |p| + 1);
  }

  /** Where the path goes on, its end has a new id, and there is room for it. */
  lemma NewIdAtEnd(root: Bundle, store: Store, p: seq<string>)
    requires Keyed(store) && root.bundleId.Some? && IsPath(root, store, p) && End(root, store, p).refs != []
    requires TidyButRoot(root, store)
    ensures Apart(root, store, p, |p| + 1) && End(root, store, p).bundleId.Some?
    ensures var id := End(root, store, p).bundleId.value;
            && id !in PathIds(root, store, p, |p|)
            && PathIds(root, store, p, |p| + 1) == PathIds(root, store, p, |p|) + {id}
    ensures |PathIds(root, store, p, |p|)| == |p| < |ClaimedIds(root, store)|
  {
    assert NoRepeats(p);
    forall j | 0 <= j < |p| ensures p[j] != root.bundleId.value {
      LeadsOn(root, store, p, j);
      if p[j] == root.bundleId.value {
        ComesBack(root, store, p, j);
      }
    }
    TidyApart(root, store, p, |p| + 1);
    assert Apart(root, store, p, |p|);
    OneMore(root, store, p);
    PathCount(root, store, p, |p|);
    PathCount(root, store, p, |p| + 1);
  }

  lemma LeadsOn(root: Bundle, store: Store, p: seq<string>, j: nat)
    requires IsPath(root, store, p) && j < |p| && End(root, store, p).refs != []
    ensures store[p[j]].refs != []
  {
    if j + 1 < |p| {
      assert Leads(At(root, store, p, j + 1), store, p[j + 1]);
    }
  }

  // ---------------------------------------------------------------- main results

  /**
    With room for every id, Python says valid exactly when all references resolve, no supplied bundle is met
    twice on a path, and the root's id comes again at most at a supplied bundle without references.
   */
  lemma CheckIsExact(root: Bundle, bundles: seq<Bundle>, digest: ContentDigest, alg: string, maxDepth: int, frames: nat)
    requires Comparable(root, bundles, digest, alg)
    requires maxDepth >= |Ids(root, IndexById(bundles))| && frames > |Ids(root, IndexById(bundles))|
    ensures ParentMapOf(bundles, digest, alg).Some?
    ensures var store := IndexById(bundles);
            Check(root, ParentMapOf(bundles, digest, alg).value, digest, maxDepth, {}, frames) == Valid
            <==> TidyButRoot(root, store)
  {
    ComparableResolution(root, bundles, digest, alg);
    KeyedClaims(root, IndexById(bundles));
    PassesExactly(root, IndexById(bundles), Run(ParentMapOf(bundles, digest, alg).value, digest, maxDepth), alg,
                  frames);
  }

  lemma PassesExactly(root: Bundle, store: Store, run: Run, alg: string, frames: nat)
    requires SameResolution(root, store, run.parents, run.digest, alg)
    requires run.maxDepth >= |ClaimedIds(root, store)| && frames > |ClaimedIds(root, store)|
    ensures Passes(root, run, {}, frames) <==> TidyButRoot(root, store)
  {
    var start: seq<string> := [];
    assert PathIds(root, store, start, 0) == {} && IsPath(root, store, start);
    assert Passes(root, run, {}, frames) <==> PassesAt(root, store, run, start, frames);
    if Passes(root, run, {}, frames) {
      PassingTidies(root, store, run, alg, frames);
    }
    if TidyButRoot(root, store) {
      EndPasses(root, store, run, alg, start, frames);
    }
  }

  ghost predicate TidyPath(root: Bundle, store: Store, p: seq<string>)
    requires Keys(store, p)
  {
    && NoRepeats(p) && AllResolve(store, End(root, store, p).refs)
    && (p != [] && End(root, store, p).bundleId == root.bundleId ==> RootIdIsLeaf(root, store))
  }

  lemma PassingTidies(root: Bundle, store: Store, run: Run, alg: string, frames: nat)
    requires SameResolution(root, store, run.parents, run.digest, alg) && Passes(root, run, {}, frames)
    ensures TidyButRoot(root, store)
  {
    forall p | IsPath(root, store, p) ensures TidyPath(root, store, p) {
      PassesAlong(root, store, run, alg, root, p, {}, frames);
      NewIsTidy(root, store, p);
    }
  }

  /**
    The memoised search and the path-copying recursion, with room for every id: TypeScript says "verified"
    exactly when Python says valid and no bundle above the root claims the root's id. They differ only
    when a supplied bundle without references claims it.
   */
  lemma PythonAgainstTypeScript(root: Bundle, bundles: seq<Bundle>, digest: ContentDigest, alg: string,
                                tsDepth: int, pyDepth: int, frames: nat)
    requires Comparable(root, bundles, digest, alg)
    requires tsDepth >= |Ids(root, IndexById(bundles))|
    requires pyDepth >= |Ids(root, IndexById(bundles))| && frames > |Ids(root, IndexById(bundles))|
    ensures ParentMapOf(bundles, digest, alg).Some?
    ensures var store := IndexById(bundles);
            var ts := TS.Answer(root, store, tsDepth);
            var py := Check(root, ParentMapOf(bundles, digest, alg).value, digest, pyDepth, {}, frames);
            && (ts == TS.Verified <==> py == Valid && !ReachesItself(root, store))
            && ((ts == TS.Verified <==> py == Valid) <==> !(py == Valid && ReachesItself(root, store)))
            && (py == Valid && ReachesItself(root, store) ==> RootIdIsLeaf(root, store))
  {
    CheckIsExact(root, bundles, digest, alg, pyDepth, frames);
    IndexByIdExact(bundles);
    TS.AnswerIsExact(root, IndexById(bundles), tsDepth);
    SoundIffValid(root, IndexById(bundles));
    SoundIffTidy(root, IndexById(bundles));
  }

  /** No supplied bundle without references claims the root's id, unless the root has no references either. */
  ghost predicate RootIdIsFree(root: Bundle, bundles: seq<Bundle>) {
    root.refs == [] || forall i :: 0 <= i < |bundles| && bundles[i].bundleId == root.bundleId ==> bundles[i].refs != []
  }

  /** Then Python decides validity of the lineage, and agrees with TypeScript. */
  lemma PythonAgreesWithTypeScript(root: Bundle, bundles: seq<Bundle>, digest: ContentDigest, alg: string,
                                   tsDepth: int, pyDepth: int, frames: nat)
    requires Comparable(root, bundles, digest, alg) && RootIdIsFree(root, bundles)
    requires tsDepth >= |Ids(root, IndexById(bundles))|
    requires pyDepth >= |Ids(root, IndexById(bundles))| && frames > |Ids(root, IndexById(bundles))|
    ensures ParentMapOf(bundles, digest, alg).Some?
    ensures var py := Check(root, ParentMapOf(bundles, digest, alg).value, digest, pyDepth, {}, frames);
            && (py == Valid <==> ValidLineage(root, IndexById(bundles)))
            && (py == Valid <==> TS.Answer(root, IndexById(bundles), tsDepth) == TS.Verified)
  {
    PythonAgainstTypeScript(root, bundles, digest, alg, tsDepth, pyDepth, frames);
    IndexByIdExact(bundles);
    TS.AnswerIsExact(root, IndexById(bundles), tsDepth);
    if RootIdIsLeaf(root, IndexById(bundles)) {
      LeafIsSupplied(root, bundles);
      NothingAbove(root, IndexById(bundles));
    }
  }

  lemma LeafIsSupplied(root: Bundle, bundles: seq<Bundle>)
    requires DistinctIds(bundles) && RootIdIsLeaf(root, IndexById(bundles))
    ensures exists i :: 0 <= i < |bundles| && bundles[i].bundleId == root.bundleId && bundles[i].refs == []
  {
    IndexByIdExact(bundles);
    assert IndexById(bundles)[root.bundleId.value] in IndexById(bundles).Values;
    var i :| 0 <= i < |bundles| && bundles[i] == IndexById(bundles)[root.bundleId.value];
  }

  lemma NothingAbove(root: Bundle, store: Store)
    requires root.refs == []
    ensures !ReachesItself(root, store)
  {
    forall p | IsPath(root, store, p) ensures p == [] {
      assert p != [] ==> Leads(At(root, store, p, 0), store, p[0]);
    }
  }
}
