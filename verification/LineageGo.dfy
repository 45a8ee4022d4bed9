/**
  The Go lineage check: a recursion over references with one visited set for the whole run.
  It is sound, and stricter than validity: a parent that is reached twice is refused even
  without a cycle. `Unfold` says exactly which lineages it accepts.
 */
module LineageGo {
  import opened Utf8
  import opened LineageGraph
  import PY = LineagePython
  import TS = LineageTypeScript

  type ContentDigest = PY.ContentDigest

  datatype GoError = DepthExceeded | Cycle(id: string) | NotFound(id: string) | DigestFailed(id: string)
      | DigestMismatch(id: string)

  /** The visited set after an accepted chain, or the error. */
  datatype Chain = Accepted(visited: set<string>) | Rejected(error: GoError)

  function EffectiveAlg(r: ParentRef, parent: Bundle): string {
    if r.digestAlg != "" then r.digestAlg else if parent.metaAlg != "" then parent.metaAlg else parent.sealAlg
  }

  function Chase(r: ParentRef, store: Store, digest: ContentDigest, visited: set<string>, depth: nat,
                 maxDepth: nat): Chain
    requires depth <= maxDepth
    decreases maxDepth - depth, 0, 0
  {
    if depth >= maxDepth then Rejected(DepthExceeded)
    else if r.parentId in visited then Rejected(Cycle(r.parentId))
    else if r.parentId !in store then Rejected(NotFound(r.parentId))
    else
      var parent := store[r.parentId];
      match digest(EffectiveAlg(r, parent), parent)
      case None => Rejected(DigestFailed(r.parentId))
      case Some(d) =>
        if d != r.parentDigest then Rejected(DigestMismatch(r.parentId))
        else ChaseAll(parent.refs, store, digest, visited + {r.parentId}, depth + 1, maxDepth)
  }

  function ChaseAll(refs: seq<ParentRef>, store: Store, digest: ContentDigest, visited: set<string>, depth: nat,
                    maxDepth: nat): Chain
    requires depth <= maxDepth
    decreases maxDepth - depth, 1, |refs|
  {
    if refs == [] then Accepted(visited) else
    match Chase(refs[0], store, digest, visited, depth, maxDepth)
    case Rejected(e) => Rejected(e)
    case Accepted(visited') => ChaseAll(refs[1..], store, digest, visited', depth, maxDepth)
  }

  /** A non-positive limit means the default of 100. */
  function Budget(maxDepth: int): nat {
    if maxDepth <= 0 then 100 else maxDepth
  }

  /** The answer of `VerifyLineage`: `None` is Go's nil. */
  function Answer(root: Bundle, bundles: seq<Bundle>, digest: ContentDigest, maxDepth: int): Option<GoError> {
    match ChaseAll(root.refs, IndexById(bundles), digest, {}, 0, Budget(maxDepth))
    case Accepted(_) => None
    case Rejected(e) => Some(e)
  }

  // ---------------------------------------------------------------- the recursion over a shared set

  /** The map that all calls of one run share. */
  class Visited {
    var ids: set<string>

    constructor ()
      ensures ids == {}
    {
      ids := {};
    }
  }

  method VerifyParentChain(r: ParentRef, store: Store, digest: ContentDigest, visited: Visited, depth: nat,
                           maxDepth: nat)
      returns (error: Option<GoError>)
    requires depth <= maxDepth
    modifies visited
    ensures match Chase(r, store, digest, old(visited.ids), depth, maxDepth)
            case Accepted(ids) => error == None && visited.ids == ids
            case Rejected(e) => error == Some(e)
    decreases maxDepth - depth
  {
    if depth >= maxDepth {
      return Some(DepthExceeded);
    }
    if r.parentId in visited.ids {
      return Some(Cycle(r.parentId));
    }
    if r.parentId !in store {
      return Some(NotFound(r.parentId));
    }
    var parent := store[r.parentId];
    var d := digest(EffectiveAlg(r, parent), parent);
    if d.None? {
      return Some(DigestFailed(r.parentId));
    }
    if d.value != r.parentDigest {
      return Some(DigestMismatch(r.parentId));
    }
    visited.ids := visited.ids + {r.parentId};
    ghost var whole := ChaseAll(parent.refs, store, digest, visited.ids, depth + 1, maxDepth);
    var i := 0;
    assert parent.refs[0..] == parent.refs;
    while i < |parent.refs|
      invariant 0 <= i <= |parent.refs|
      invariant ChaseAll(parent.refs[i..], store, digest, visited.ids, depth + 1, maxDepth) == whole
    {
      assert parent.refs[i..][0] == parent.refs[i] && parent.refs[i..][1..] == parent.refs[i + 1..];
      error := VerifyParentChain(parent.refs[i], store, digest, visited, depth + 1, maxDepth);
      if error.Some? {
        return;
      }
      i := i + 1;
    }
    return None;
  }

  method BuildIndex(bundles: seq<Bundle>) returns (store: Store)
    ensures store == IndexById(bundles)
  {
    store := map[];
    var i := 0;
    while i < |bundles|
      invariant 0 <= i <= |bundles|
      invariant store == IndexById(bundles[..i])
    {
      assert bundles[..i + 1][..i] == bundles[..i];
      store := store[IdOf(bundles[i]) := bundles[i]];
      i := i + 1;
    }
    assert bundles[..i] == bundles;
  }

  method VerifyLineage(root: Bundle, bundles: seq<Bundle>, digest: ContentDigest, maxDepth: int)
      returns (error: Option<GoError>)
    ensures error == Answer(root, bundles, digest, maxDepth)
  {
    var limit := Budget(maxDepth);
    if root.refs == [] {
      return None;
    }
    var store := BuildIndex(bundles);
    var visited := new Visited();
    var i := 0;
    ghost var whole := ChaseAll(root.refs, store, digest, {}, 0, limit);
    assert root.refs[0..] == root.refs;
    while i < |root.refs|
      invariant 0 <= i <= |root.refs|
      invariant ChaseAll(root.refs[i..], store, digest, visited.ids, 0, limit) == whole
    {
      assert root.refs[i..][0] == root.refs[i] && root.refs[i..][1..] == root.refs[i + 1..];
      error := VerifyParentChain(root.refs[i], store, digest, visited, 0, limit);
      if error.Some? {
        return;
      }
      i := i + 1;
    }
    return None;
  }

  // ---------------------------------------------------------------- the unfolding

  predicate Matches(store: Store, digest: ContentDigest, r: ParentRef) {
    r.parentId in store && digest(EffectiveAlg(r, store[r.parentId]), store[r.parentId]) == Some(r.parentDigest)
  }

  ghost predicate AllMatch(store: Store, digest: ContentDigest, refs: seq<ParentRef>) {
    forall i :: 0 <= i < |refs| ==> Matches(store, digest, refs[i])
  }

  /**
    All parents met when every reference is followed, with repetitions, in preorder. There is
    none when a reference does not match or the unfolding is deeper than `maxDepth` levels.
   */
  function Unfold(refs: seq<ParentRef>, store: Store, digest: ContentDigest, depth: nat,
                  maxDepth: nat): Option<seq<string>>
    requires depth <= maxDepth
    decreases maxDepth - depth, |refs|
  {
    if refs == [] then Some([])
    else if depth == maxDepth || !Matches(store, digest, refs[0]) then None
    else
      match Unfold(store[refs[0].parentId].refs, store, digest, depth + 1, maxDepth)
      case None => None
      case Some(above) =>
        match Unfold(refs[1..], store, digest, depth, maxDepth)
        case None => None
        case Some(others) => Some([refs[0].parentId] + above + others)
  }

  lemma NoRepeatsConcat(a: seq<string>, b: seq<string>)
    ensures NoRepeats(a + b) <==> NoRepeats(a) && NoRepeats(b) && Elements(a) !! Elements(b)
    ensures Elements(a + b) == Elements(a) + Elements(b)
  {
    var c := a + b;
    assert forall x :: x in c <==> x in a || x in b;
    if NoRepeats(c) {
      forall i, j | 0 <= i < j < |a| ensures a[i] != a[j] { assert c[i] != c[j]; }
      forall i, j | 0 <= i < j < |b| ensures b[i] != b[j] { assert c[|a| + i] != c[|a| + j]; }
      forall x | x in a ensures x !in b {
        var i :| 0 <= i < |a| && a[i] == x;
        forall j | 0 <= j < |b| ensures b[j] != x { assert c[i] != c[|a| + j]; }
      }
    }
    if NoRepeats(a) && NoRepeats(b) && Elements(a) !! Elements(b) {
      forall i, j | 0 <= i < j < |c| ensures c[i] != c[j] {
        if i < |a| <= j {
          assert a[i] in Elements(a) && b[j - |a|] in Elements(b);
        } else if i >= |a| {
          assert b[i - |a|] != b[j - |a|];
        }
      }
    }
  }

  /** What the shared visited set achieves: the unfolding has no repetition and avoids the set. */
  ghost predicate ChaseSpec(chain: Chain, unfolding: Option<seq<string>>, visited: set<string>) {
    && (chain.Accepted? <==> unfolding.Some? && NoRepeats(unfolding.value) && Elements(unfolding.value) !! visited)
    && (chain.Accepted? ==> chain.visited == visited + Elements(unfolding.value))
  }

  lemma {:induction false} ChaseAllExact(refs: seq<ParentRef>, store: Store, digest: ContentDigest,
                                         visited: set<string>, depth: nat, maxDepth: nat)
    requires depth <= maxDepth
    ensures ChaseSpec(ChaseAll(refs, store, digest, visited, depth, maxDepth),
                      Unfold(refs, store, digest, depth, maxDepth), visited)
    decreases maxDepth - depth, |refs|
  {
    if refs == [] {
      assert Elements([]) == {};
    } else if depth < maxDepth && Matches(store, digest, refs[0]) {
      var id := refs[0].parentId;
      var parent := store[id];
      ChaseAllExact(parent.refs, store, digest, visited + {id}, depth + 1, maxDepth);
      var above := Unfold(parent.refs, store, digest, depth + 1, maxDepth);
      var others := Unfold(refs[1..], store, digest, depth, maxDepth);
      if above.Some? {
        NoRepeatsConcat([id], above.value);
        assert Elements([id]) == {id};
        var first := Chase(refs[0], store, digest, visited, depth, maxDepth);
        if first.Accepted? {
          assert first.visited == visited + {id} + Elements(above.value);
          ChaseAllExact(refs[1..], store, digest, first.visited, depth, maxDepth);
        }
        if others.Some? {
          NoRepeatsConcat([id] + above.value, others.value);
        }
      }
    }
  }

  // ---------------------------------------------------------------- soundness

  /** One reference of an unfolded list: it matches, and what is above it is part of the unfolding. */
  lemma {:induction false} UnfoldRef(refs: seq<ParentRef>, store: Store, digest: ContentDigest, depth: nat,
                                     maxDepth: nat, i: nat) returns (above: seq<string>)
    requires depth <= maxDepth && i < |refs|
    requires Unfold(refs, store, digest, depth, maxDepth).Some?
    ensures depth < maxDepth && Matches(store, digest, refs[i])
    ensures Unfold(store[refs[i].parentId].refs, store, digest, depth + 1, maxDepth) == Some(above)
    ensures var u := Unfold(refs, store, digest, depth, maxDepth).value;
            && Elements([refs[i].parentId] + above) <= Elements(u)
            && (NoRepeats(u) ==> NoRepeats(above) && refs[i].parentId !in above)
    decreases |refs|
  {
    var id := refs[0].parentId;
    var first := Unfold(store[id].refs, store, digest, depth + 1, maxDepth).value;
    var others := Unfold(refs[1..], store, digest, depth, maxDepth).value;
    NoRepeatsConcat([id], first);
    NoRepeatsConcat([id] + first, others);
    if i == 0 {
      above := first;
      assert id in Elements([id]);
    } else {
      above := UnfoldRef(refs[1..], store, digest, depth, maxDepth, i - 1);
    }
  }

  lemma UnfoldedMatch(refs: seq<ParentRef>, store: Store, digest: ContentDigest, depth: nat, maxDepth: nat)
    requires depth <= maxDepth && Unfold(refs, store, digest, depth, maxDepth).Some?
    ensures AllMatch(store, digest, refs)
  {
    forall j | 0 <= j < |refs| ensures Matches(store, digest, refs[j]) {
      var _ := UnfoldRef(refs, store, digest, depth, maxDepth, j);
    }
  }

  lemma ConsElements(x: string, a: seq<string>, b: seq<string>)
    requires Elements(a) <= Elements(b)
    ensures Elements([x] + a) <= Elements([x] + b)
    ensures NoRepeats(a) && x !in b ==> NoRepeats([x] + a)
  {
    NoRepeatsConcat([x], a);
    NoRepeatsConcat([x], b);
    assert x !in b ==> Elements([x]) !! Elements(b);
  }

  /** The path stays inside the unfolding and within the levels left, and its end matches. */
  ghost predicate Inside(b: Bundle, store: Store, digest: ContentDigest, u: seq<string>, levels: int, p: seq<string>)
    requires Keys(store, p)
  {
    && |p| <= levels && Elements(p) <= Elements(u) && (NoRepeats(u) ==> NoRepeats(p))
    && AllMatch(store, digest, End(b, store, p).refs)
  }

  /** So does every path from `b`. */
  lemma {:induction false} PathUnfolds(b: Bundle, store: Store, digest: ContentDigest, depth: nat, maxDepth: nat,
                                       p: seq<string>)
    requires depth <= maxDepth && IsPath(b, store, p)
    requires Unfold(b.refs, store, digest, depth, maxDepth).Some?
    ensures Inside(b, store, digest, Unfold(b.refs, store, digest, depth, maxDepth).value, maxDepth - depth, p)
    decreases |p|
  {
    if p == [] {
      UnfoldedMatch(b.refs, store, digest, depth, maxDepth);
    } else {
      var i := FirstStep(b, store, p);
      var above := UnfoldRef(b.refs, store, digest, depth, maxDepth, i);
      PathUnfolds(store[p[0]], store, digest, depth + 1, maxDepth, p[1..]);
      InsideBelow(b, store, digest, p, above, Unfold(b.refs, store, digest, depth, maxDepth).value, maxDepth - depth);
    }
  }

  lemma InsideBelow(b: Bundle, store: Store, digest: ContentDigest, p: seq<string>, above: seq<string>, u: seq<string>,
                    levels: int)
    requires p != [] && Keys(store, p) && Keys(store, p[1..])
    requires Inside(store[p[0]], store, digest, above, levels - 1, p[1..])
    requires Elements([p[0]] + above) <= Elements(u) && (NoRepeats(u) ==> NoRepeats(above) && p[0] !in above)
    ensures Inside(b, store, digest, u, levels, p)
  {
    assert p == [p[0]] + p[1..] && End(b, store, p) == End(store[p[0]], store, p[1..]);
    ConsElements(p[0], p[1..], above);
  }

  lemma FirstStep(b: Bundle, store: Store, p: seq<string>) returns (i: nat)
    requires IsPath(b, store, p) && p != []
    ensures i < |b.refs| && b.refs[i].parentId == p[0] && Resolves(store, b.refs[i])
    ensures IsPath(store[p[0]], store, p[1..])
  {
    assert Leads(At(b, store, p, 0), store, p[0]);
    i :| 0 <= i < |b.refs| && b.refs[i].parentId == p[0] && Resolves(store, b.refs[i]);
    PathSuffix(b, store, p, 1);
  }

  /** For the references of the bundle, Go's digest check is the seal digest check. */
  ghost predicate Honest(b: Bundle, store: Store, digest: ContentDigest) {
    forall i :: 0 <= i < |b.refs| ==> (Matches(store, digest, b.refs[i]) <==> Resolves(store, b.refs[i]))
  }

  ghost predicate AllHonest(root: Bundle, store: Store, digest: ContentDigest) {
    Honest(root, store, digest) && forall k :: k in store ==> Honest(store[k], store, digest)
  }

  lemma HonestEnd(root: Bundle, store: Store, digest: ContentDigest, p: seq<string>)
    requires AllHonest(root, store, digest) && Keys(store, p)
    ensures Honest(End(root, store, p), store, digest)
    ensures AllMatch(store, digest, End(root, store, p).refs) <==> AllResolve(store, End(root, store, p).refs)
  {
    var b := End(root, store, p);
    assert Honest(b, store, digest);
    assert forall i :: 0 <= i < |b.refs| ==> (Matches(store, digest, b.refs[i]) <==> Resolves(store, b.refs[i]));
  }

  /** Everything in the unfolding is reached by a path. */
  lemma {:induction false} UnfoldedIsReached(b: Bundle, store: Store, digest: ContentDigest, depth: nat, maxDepth: nat,
                                             i: nat, x: string) returns (p: seq<string>)
    requires depth <= maxDepth && i <= |b.refs|
    requires Honest(b, store, digest) && forall k :: k in store ==> Honest(store[k], store, digest)
    requires Unfold(b.refs[i..], store, digest, depth, maxDepth).Some?
    requires x in Unfold(b.refs[i..], store, digest, depth, maxDepth).value
    ensures IsPath(b, store, p) && p != [] && Last(p) == x
    decreases maxDepth - depth, |b.refs| - i
  {
    var r, rest := b.refs[i], b.refs[i + 1..];
    assert b.refs[i..][0] == r && b.refs[i..][1..] == rest;
    var t := store[r.parentId];
    var above := Unfold(t.refs, store, digest, depth + 1, maxDepth).value;
    assert Matches(store, digest, r);
    if x == r.parentId {
      OneStep(b, store, r.parentId);
      p := [r.parentId];
    } else if x in above {
      assert t.refs[0..] == t.refs;
      var q := UnfoldedIsReached(t, store, digest, depth + 1, maxDepth, 0, x);
      p := PathBefore(b, store, r.parentId, q);
    } else {
      p := UnfoldedIsReached(b, store, digest, depth, maxDepth, i + 1, x);
    }
  }

  lemma PathBefore(b: Bundle, store: Store, k: string, q: seq<string>) returns (p: seq<string>)
    requires Leads(b, store, k) && IsPath(store[k], store, q) && q != []
    ensures IsPath(b, store, p) && p != [] && Last(p) == Last(q)
  {
    OneStep(b, store, k);
    PathConcat(b, store, [k], q);
    p := [k] + q;
  }

  /** The root's id is unfolded exactly when some bundle above the root claims it. */
  lemma RootUnfoldedIff(root: Bundle, store: Store, digest: ContentDigest, maxDepth: nat)
    requires Keyed(store) && root.bundleId.Some? && AllHonest(root, store, digest)
    requires Unfold(root.refs, store, digest, 0, maxDepth).Some?
    ensures root.bundleId.value in Unfold(root.refs, store, digest, 0, maxDepth).value <==> ReachesItself(root, store)
  {
    var u, id := Unfold(root.refs, store, digest, 0, maxDepth).value, root.bundleId.value;
    if id in u {
      assert root.refs[0..] == root.refs;
      var p := UnfoldedIsReached(root, store, digest, 0, maxDepth, 0, id);
      ComesBack(root, store, p, |p| - 1);
    }
    if p :| IsPath(root, store, p) && p != [] && End(root, store, p).bundleId == root.bundleId {
      PathUnfolds(root, store, digest, 0, maxDepth, p);
      assert Last(p) == id && Last(p) in Elements(p);
    }
  }

  /** An unrepeated unfolding makes a tidy lineage, within the limit. */
  lemma UnfoldedOnceIsTidy(root: Bundle, store: Store, digest: ContentDigest, maxDepth: nat)
    requires AllHonest(root, store, digest) && Unfold(root.refs, store, digest, 0, maxDepth).Some?
    requires NoRepeats(Unfold(root.refs, store, digest, 0, maxDepth).value)
    ensures Tidy(root, store) && forall p :: IsPath(root, store, p) ==> |p| <= maxDepth
  {
    forall p | IsPath(root, store, p)
      ensures NoRepeats(p) && AllResolve(store, End(root, store, p).refs) && |p| <= maxDepth {
      PathUnfolds(root, store, digest, 0, maxDepth, p);
      HonestEnd(root, store, digest, p);
    }
  }

  /** A tidy lineage unfolds completely when the limit has room for every key. */
  lemma {:induction false} TidyUnfolds(root: Bundle, store: Store, digest: ContentDigest, maxDepth: nat, p: seq<string>,
                                       i: nat)
    requires AllHonest(root, store, digest) && Tidy(root, store) && maxDepth >= |store.Keys|
    requires IsPath(root, store, p) && |p| <= maxDepth && i <= |End(root, store, p).refs|
    ensures Unfold(End(root, store, p).refs[i..], store, digest, |p|, maxDepth).Some?
    decreases maxDepth - |p|, |End(root, store, p).refs| - i
  {
    var b := End(root, store, p);
    if i < |b.refs| {
      var r := b.refs[i];
      assert b.refs[i..][0] == r && b.refs[i..][1..] == b.refs[i + 1..];
      NextKey(root, store, digest, p, i);
      TidyUnfolds(root, store, digest, maxDepth, p + [r.parentId], 0);
      assert store[r.parentId].refs[0..] == store[r.parentId].refs;
      TidyUnfolds(root, store, digest, maxDepth, p, i + 1);
    }
  }

  lemma NextKey(root: Bundle, store: Store, digest: ContentDigest, p: seq<string>, i: nat)
    requires AllHonest(root, store, digest) && Tidy(root, store) && IsPath(root, store, p)
    requires i < |End(root, store, p).refs|
    ensures var r := End(root, store, p).refs[i];
            && Matches(store, digest, r) && IsPath(root, store, p + [r.parentId])
            && End(root, store, p + [r.parentId]) == store[r.parentId]
    ensures |p| + 1 <= |store.Keys|
  {
    var r := End(root, store, p).refs[i];
    assert AllResolve(store, End(root, store, p).refs);
    HonestEnd(root, store, digest, p);
    assert Leads(End(root, store, p), store, r.parentId);
    ExtendPath(root, store, p, r.parentId);
    DistinctCount(p + [r.parentId], store.Keys);
  }

  // ---------------------------------------------------------------- main results

  /** Go accepts exactly when all references match within the limit and no parent id occurs twice. */
  lemma AcceptsIffUnfoldsOnce(root: Bundle, bundles: seq<Bundle>, digest: ContentDigest, maxDepth: int)
    ensures var u := Unfold(root.refs, IndexById(bundles), digest, 0, Budget(maxDepth));
            Answer(root, bundles, digest, maxDepth) == None <==> u.Some? && NoRepeats(u.value)
  {
    ChaseAllExact(root.refs, IndexById(bundles), digest, {}, 0, Budget(maxDepth));
  }

  lemma ComparableIsHonest(root: Bundle, bundles: seq<Bundle>, digest: ContentDigest, alg: string)
    requires PY.Comparable(root, bundles, digest, alg) && alg != ""
    ensures Keyed(IndexById(bundles)) && AllHonest(root, IndexById(bundles), digest)
  {
    IndexByIdExact(bundles);
    var store := IndexById(bundles);
    forall k | k in store
      ensures store[k].sealDigest == digest(alg, store[k]) && store[k].sealDigest.Some? && PY.RefsUse(store[k], alg)
    {
      assert store[k] in store.Values;
      var i :| 0 <= i < |bundles| && bundles[i] == store[k];
    }
  }

  /** All parent ids that Go looks at, in order, on a run that it accepts. */
  function Unfolded(root: Bundle, bundles: seq<Bundle>, digest: ContentDigest, maxDepth: int): seq<string> {
    match Unfold(root.refs, IndexById(bundles), digest, 0, Budget(maxDepth)) case Some(u) => u case None => []
  }

  /**
    Acceptance implies that all references resolve, that no parent id comes twice on a path and that no path has
    more levels than the limit. The lineage is then valid exactly when the root's id is not among the parent ids.
   */
  lemma AcceptanceIsSound(root: Bundle, bundles: seq<Bundle>, digest: ContentDigest, alg: string, maxDepth: int)
    requires PY.Comparable(root, bundles, digest, alg) && alg != ""
    requires Answer(root, bundles, digest, maxDepth) == None
    ensures Tidy(root, IndexById(bundles))
    ensures forall p :: IsPath(root, IndexById(bundles), p) ==> |p| <= Budget(maxDepth)
    ensures ValidLineage(root, IndexById(bundles))
            <==> root.bundleId.value !in Unfolded(root, bundles, digest, maxDepth)
  {
    var store := IndexById(bundles);
    AcceptsIffUnfoldsOnce(root, bundles, digest, maxDepth);
    ComparableIsHonest(root, bundles, digest, alg);
    UnfoldedOnceIsTidy(root, store, digest, Budget(maxDepth));
    RootUnfoldedIff(root, store, digest, Budget(maxDepth));
    SoundIffTidy(root, store);
    SoundIffValid(root, store);
  }

  /**
    With room for every id: what Go accepts without meeting the root's id are exactly the valid lineages in
    which no parent is reached twice.
   */
  lemma AcceptsIffValidAndUnshared(root: Bundle, bundles: seq<Bundle>, digest: ContentDigest, alg: string,
                                   maxDepth: int)
    requires PY.Comparable(root, bundles, digest, alg) && alg != ""
    requires Budget(maxDepth) >= |Ids(root, IndexById(bundles))|
    ensures var u := Unfolded(root, bundles, digest, maxDepth);
            && (Answer(root, bundles, digest, maxDepth) == None
                <==> Tidy(root, IndexById(bundles)) && NoRepeats(u))
            && (Answer(root, bundles, digest, maxDepth) == None && root.bundleId.value !in u
                <==> ValidLineage(root, IndexById(bundles)) && NoRepeats(u))
  {
    var store := IndexById(bundles);
    AcceptsIffUnfoldsOnce(root, bundles, digest, maxDepth);
    ComparableIsHonest(root, bundles, digest, alg);
    SoundIffTidy(root, store);
    SoundIffValid(root, store);
    if Answer(root, bundles, digest, maxDepth) == None {
      AcceptanceIsSound(root, bundles, digest, alg, maxDepth);
    }
    if Tidy(root, store) {
      KeysWithinIds(root, store);
      TidyUnfolds(root, store, digest, Budget(maxDepth), [], 0);
      assert root.refs[0..] == root.refs;
      RootUnfoldedIff(root, store, digest, Budget(maxDepth));
    }
  }

  lemma KeysWithinIds(root: Bundle, store: Store)
    ensures |store.Keys| <= |Ids(root, store)|
  {
    var more := Ids(root, store) - store.Keys;
    assert Ids(root, store) == store.Keys + more;
  }

  /** What Go accepts, the TypeScript search verifies exactly when the root's id is not among the parent ids. */
  lemma GoAgainstTypeScript(root: Bundle, bundles: seq<Bundle>, digest: ContentDigest, alg: string, maxDepth: int,
                            tsDepth: int)
    requires PY.Comparable(root, bundles, digest, alg) && alg != ""
    requires tsDepth >= |Ids(root, IndexById(bundles))|
    requires Answer(root, bundles, digest, maxDepth) == None
    ensures TS.Answer(root, IndexById(bundles), tsDepth) == TS.Verified
            <==> root.bundleId.value !in Unfolded(root, bundles, digest, maxDepth)
  {
    AcceptanceIsSound(root, bundles, digest, alg, maxDepth);
    IndexByIdExact(bundles);
    TS.AnswerIsExact(root, IndexById(bundles), tsDepth);
  }

  /**
    An accepted lineage does not come back to the root itself, although the root never enters the visited
    set: going round once more would meet the first parent twice. Where the root's id comes again, another
    supplied bundle claims it.
   */
  lemma RootNotRevisited(root: Bundle, bundles: seq<Bundle>, digest: ContentDigest, alg: string, maxDepth: int)
    requires PY.Comparable(root, bundles, digest, alg) && alg != ""
    requires Answer(root, bundles, digest, maxDepth) == None
    ensures forall p :: IsPath(root, IndexById(bundles), p) && p != [] ==> End(root, IndexById(bundles), p) != root
    ensures ReachesItself(root, IndexById(bundles))
            <==> root.bundleId.value in Unfolded(root, bundles, digest, maxDepth)
  {
    var store := IndexById(bundles);
    AcceptanceIsSound(root, bundles, digest, alg, maxDepth);
    AcceptsIffUnfoldsOnce(root, bundles, digest, maxDepth);
    ComparableIsHonest(root, bundles, digest, alg);
    RootUnfoldedIff(root, store, digest, Budget(maxDepth));
    forall p | IsPath(root, store, p) && p != [] ensures End(root, store, p) != root {
      if End(root, store, p) == root {
        RoundAgain(root, store, p);
      }
    }
  }

  // ---------------------------------------------------------------- when the root is the only bundle of its id

  /** Any supplied bundle that claims the root's id is the root. */
  ghost predicate OwnRoot(root: Bundle, bundles: seq<Bundle>) {
    forall i :: 0 <= i < |bundles| && bundles[i].bundleId == root.bundleId ==> bundles[i] == root
  }

  /** Then the root's id is not among the parent ids of an accepted lineage. */
  lemma OwnRootNotUnfolded(root: Bundle, bundles: seq<Bundle>, digest: ContentDigest, alg: string, maxDepth: int)
    requires PY.Comparable(root, bundles, digest, alg) && alg != "" && OwnRoot(root, bundles)
    requires Answer(root, bundles, digest, maxDepth) == None
    ensures root.bundleId.value !in Unfolded(root, bundles, digest, maxDepth)
  {
    var store := IndexById(bundles);
    RootNotRevisited(root, bundles, digest, alg, maxDepth);
    if p :| IsPath(root, store, p) && p != [] && End(root, store, p).bundleId == root.bundleId {
      EndIsRoot(root, bundles, p);
      assert false;
    }
  }

  lemma EndIsRoot(root: Bundle, bundles: seq<Bundle>, p: seq<string>)
    requires DistinctIds(bundles) && OwnRoot(root, bundles) && Keys(IndexById(bundles), p) && p != []
    requires End(root, IndexById(bundles), p).bundleId == root.bundleId
    ensures End(root, IndexById(bundles), p) == root
  {
    IndexByIdExact(bundles);
    var store := IndexById(bundles);
    assert store[Last(p)] in store.Values;
    var i :| 0 <= i < |bundles| && bundles[i] == store[Last(p)];
  }

  /** A path that ends at the root itself can be gone twice, which repeats its keys. */
  lemma RoundAgain(root: Bundle, store: Store, p: seq<string>)
    requires IsPath(root, store, p) && p != [] && End(root, store, p) == root
    ensures !Tidy(root, store)
  {
    PathConcat(root, store, p, p);
    assert (p + p)[0] == (p + p)[|p|];
  }

  /** So what Go accepts is a valid lineage, and the TypeScript search verifies it. */
  lemma GoImpliesTypeScript(root: Bundle, bundles: seq<Bundle>, digest: ContentDigest, alg: string, maxDepth: int,
                            tsDepth: int)
    requires PY.Comparable(root, bundles, digest, alg) && alg != "" && OwnRoot(root, bundles)
    requires tsDepth >= |Ids(root, IndexById(bundles))|
    requires Answer(root, bundles, digest, maxDepth) == None
    ensures ValidLineage(root, IndexById(bundles)) && TS.Answer(root, IndexById(bundles), tsDepth) == TS.Verified
  {
    OwnRootNotUnfolded(root, bundles, digest, alg, maxDepth);
    AcceptanceIsSound(root, bundles, digest, alg, maxDepth);
    GoAgainstTypeScript(root, bundles, digest, alg, maxDepth, tsDepth);
  }
}
