/**
  The TypeScript lineage walk: a depth-first search with the colours `visiting` and `visited`
  and a depth budget. `WalkNode` and `WalkRefs` describe one call and one loop as functions of
  the two sets; `Walker.Walk` is the search itself.
 */
module LineageTypeScript {
  import opened Utf8
  import opened LineageGraph

  datatype Outcome = Verified | LineageInvalid | ResourceExhausted

  /** An outcome and the colour sets it leaves behind. */
  datatype Walked = Walked(outcome: Outcome, visiting: set<string>, visited: set<string>)

  function WalkNode(store: Store, maxDepth: int, node: Bundle, depth: nat, visiting: set<string>,
                    visited: set<string>): Walked
    decreases maxDepth + 1 - depth, 1, 0
  {
    if depth > maxDepth then Walked(ResourceExhausted, visiting, visited)
    else if node.bundleId.None? then Walked(LineageInvalid, visiting, visited)
    else
      var id := node.bundleId.value;
      if id in visiting then Walked(LineageInvalid, visiting, visited)
      else if id in visited then Walked(Verified, visiting, visited)
      else
        var w := WalkRefs(store, maxDepth, node.refs, depth, visiting + {id}, visited);
        if w.outcome != Verified then w else Walked(Verified, w.visiting - {id}, w.visited + {id})
  }

  function WalkRefs(store: Store, maxDepth: int, refs: seq<ParentRef>, depth: nat, visiting: set<string>,
                    visited: set<string>): Walked
    requires depth <= maxDepth
    decreases maxDepth + 1 - depth, 0, |refs|
  {
    if refs == [] then Walked(Verified, visiting, visited)
    else if refs[0].parentId !in store || store[refs[0].parentId].sealDigest != Some(refs[0].parentDigest) then
      Walked(LineageInvalid, visiting, visited)
    else
      var w := WalkNode(store, maxDepth, store[refs[0].parentId], depth + 1, visiting, visited);
      if w.outcome != Verified then w
      else WalkRefs(store, maxDepth, refs[1..], depth, w.visiting, w.visited)
  }

  /** The answer of `verifyLineage`. */
  function Answer(root: Bundle, store: Store, maxDepth: int): Outcome {
    WalkNode(store, maxDepth, root, 0, {}, {}).outcome
  }

  // ---------------------------------------------------------------- the search

  class Walker {
    var visiting: set<string>
    var visited: set<string>
    const store: Store
    const maxDepth: int

    constructor (store: Store, maxDepth: int)
      ensures this.store == store && this.maxDepth == maxDepth
      ensures visiting == {} && visited == {}
    {
      this.store, this.maxDepth := store, maxDepth;
      visiting, visited := {}, {};
    }

    method Walk(node: Bundle, depth: nat) returns (outcome: Outcome)
      modifies this
      ensures Walked(outcome, visiting, visited) == WalkNode(store, maxDepth, node, depth, old(visiting), old(visited))
      decreases maxDepth + 1 - depth
    {
      if depth > maxDepth {
        return ResourceExhausted;
      }
      if node.bundleId.None? {
        return LineageInvalid;
      }
      var id := node.bundleId.value;
      if id in visiting {
        return LineageInvalid;
      }
      if id in visited {
        return Verified;
      }
      visiting := visiting + {id};
      ghost var whole := WalkRefs(store, maxDepth, node.refs, depth, visiting, visited);
      var i := 0;
      assert node.refs[0..] == node.refs;
      while i < |node.refs|
        invariant 0 <= i <= |node.refs|
        invariant WalkRefs(store, maxDepth, node.refs[i..], depth, visiting, visited) == whole
      {
        var r := node.refs[i];
        assert node.refs[i..][0] == r && node.refs[i..][1..] == node.refs[i + 1..];
        if r.parentId !in store {
          return LineageInvalid;
        }
        var parent := store[r.parentId];
        if parent.sealDigest != Some(r.parentDigest) {
          return LineageInvalid;
        }
        outcome := Walk(parent, depth + 1);
        if outcome != Verified {
          return;
        }
        i := i + 1;
      }
      visiting := visiting - {id};
      visited := visited + {id};
      return Verified;
    }
  }

  method VerifyLineage(root: Bundle, store: Store, maxDepth: int) returns (outcome: Outcome)
    ensures outcome == Answer(root, store, maxDepth)
  {
    var walker := new Walker(store, maxDepth);
    outcome := walker.Walk(root, 0);
  }

  // ---------------------------------------------------------------- what one call keeps

  /**
    The situation between two steps of the search, for any store: the first `n` bundles of the path
    are being visited and claim different ids, the finished bundles are topologically ordered, and
    `visited` holds the ids they claim.
   */
  ghost predicate Searching(root: Bundle, store: Store, p: seq<string>, n: nat, visited: set<string>,
                            order: seq<Bundle>)
    requires IsPath(root, store, p) && n <= |p| + 1
  {
    && Apart(root, store, p, n)
    && Topological(store, order) && AllReached(root, store, order)
    && visited == Claimed(order)
    && PathIds(root, store, p, n) !! visited
  }

  /** What a path shows: it is within the budget and not fine, or it is the shortest that exceeds the budget. */
  ghost predicate Shows(root: Bundle, store: Store, maxDepth: int, evidence: seq<string>, outcome: Outcome) {
    && IsPath(root, store, evidence)
    && if outcome == LineageInvalid then |evidence| <= maxDepth && !Fine(root, store, evidence)
       else Exceeds(evidence, maxDepth) && Apart(root, store, evidence, |evidence|)
  }

  /** The path has one level more than the budget; below a negative budget every path is too long. */
  predicate Exceeds(p: seq<string>, maxDepth: int) {
    if maxDepth < 0 then p == [] else |p| == maxDepth + 1
  }

  /** What a finished call or loop guarantees: an extended order, or a path that shows why not. */
  ghost predicate Explained(root: Bundle, store: Store, maxDepth: int, p: seq<string>, n: nat, w: Walked,
                            order: seq<Bundle>, evidence: seq<string>)
    requires IsPath(root, store, p) && n <= |p| + 1
  {
    if w.outcome == Verified then w.visiting == PathIds(root, store, p, n)
        && Searching(root, store, p, n, w.visited, order)
    else Shows(root, store, maxDepth, evidence, w.outcome)
  }

  /** The node at the end of the path is walked with the bundles before it being visited. */
  lemma {:induction false} WalkNodeExplained(root: Bundle, store: Store, maxDepth: int, p: seq<string>,
                                             visited: set<string>, order: seq<Bundle>)
      returns (order': seq<Bundle>, evidence: seq<string>)
    requires IsPath(root, store, p) && Searching(root, store, p, |p|, visited, order)
    requires |p| <= maxDepth || Exceeds(p, maxDepth)
    ensures var node := End(root, store, p);
            var w := WalkNode(store, maxDepth, node, |p|, PathIds(root, store, p, |p|), visited);
            && Explained(root, store, maxDepth, p, |p|, w, order', evidence)
            && (w.outcome == Verified ==>
                  && visited <= w.visited && node.bundleId.Some? && node.bundleId.value in w.visited
                  && (node.bundleId.value !in visited ==> order' != [] && order'[|order'| - 1] == node))
    decreases maxDepth + 1 - |p|, 1, 0
  {
    order', evidence := order, p;
    var node := End(root, store, p);
    if |p| <= maxDepth && node.bundleId.Some? {
      var id := node.bundleId.value;
      OneMore(root, store, p);
      if id !in PathIds(root, store, p, |p|) && id !in visited {
        order', evidence := WalkRefsExplained(root, store, maxDepth, p, 0, visited, order);
        assert node.refs[0..] == node.refs;
        var w := WalkRefs(store, maxDepth, node.refs, |p|, PathIds(root, store, p, |p| + 1), visited);
        if w.outcome == Verified {
          FinishNode(root, store, p, w.visited, order');
          order' := order' + [node];
        }
      }
    }
  }

  /** The last bundle of the path stops being visited and ends the order of the finished ones. */
  lemma FinishNode(root: Bundle, store: Store, p: seq<string>, visited: set<string>, order: seq<Bundle>)
    requires IsPath(root, store, p) && End(root, store, p).bundleId.Some?
    requires Apart(root, store, p, |p|) && Searching(root, store, p, |p| + 1, visited, order)
    requires RefsVisited(store, End(root, store, p), 0, visited)
    ensures var node := End(root, store, p);
            var id := node.bundleId.value;
            && Searching(root, store, p, |p|, visited + {id}, order + [node])
            && PathIds(root, store, p, |p| + 1) - {id} == PathIds(root, store, p, |p|)
  {
    var node := End(root, store, p);
    OneMore(root, store, p);
    assert Reached(root, store, node);
    assert Settled(store, order, node);
    ExtendTopological(store, order, node);
  }

  lemma {:induction false} WalkRefsExplained(root: Bundle, store: Store, maxDepth: int, p: seq<string>, i: nat,
                                             visited: set<string>, order: seq<Bundle>)
      returns (order': seq<Bundle>, evidence: seq<string>)
    requires IsPath(root, store, p) && |p| <= maxDepth && i <= |End(root, store, p).refs|
    requires Searching(root, store, p, |p| + 1, visited, order)
    ensures var node := End(root, store, p);
            var w := WalkRefs(store, maxDepth, node.refs[i..], |p|, PathIds(root, store, p, |p| + 1), visited);
            && Explained(root, store, maxDepth, p, |p| + 1, w, order', evidence)
            && (w.outcome == Verified ==> visited <= w.visited && RefsVisited(store, node, i, w.visited))
    decreases maxDepth + 1 - |p|, 0, |End(root, store, p).refs| - i + 1
  {
    order', evidence := order, p;
    var node := End(root, store, p);
    if i < |node.refs| {
      var r := node.refs[i];
      assert node.refs[i..][0] == r && node.refs[i..][1..] == node.refs[i + 1..];
      if Resolves(store, r) {
        assert Leads(node, store, r.parentId);
        order', evidence := WalkParentExplained(root, store, maxDepth, p, r.parentId, visited, order);
        var w := WalkNode(store, maxDepth, store[r.parentId], |p| + 1, PathIds(root, store, p, |p| + 1), visited);
        if w.outcome == Verified {
          order', evidence := WalkRefsExplained(root, store, maxDepth, p, i + 1, w.visited, order');
        }
      } else {
        assert !AllResolve(store, node.refs);
      }
    }
  }

  /** One round of the loop: the parent is walked, and then the loop stands where it stood. */
  lemma WalkParentExplained(root: Bundle, store: Store, maxDepth: int, p: seq<string>, k: string,
                            visited: set<string>, order: seq<Bundle>)
      returns (order': seq<Bundle>, evidence: seq<string>)
    requires IsPath(root, store, p) && |p| <= maxDepth && Leads(End(root, store, p), store, k)
    requires Searching(root, store, p, |p| + 1, visited, order)
    ensures var w := WalkNode(store, maxDepth, store[k], |p| + 1, PathIds(root, store, p, |p| + 1), visited);
            && Explained(root, store, maxDepth, p, |p| + 1, w, order', evidence)
            && (w.outcome == Verified ==>
                  visited <= w.visited && store[k].bundleId.Some? && store[k].bundleId.value in w.visited)
    decreases maxDepth + 1 - |p|, 0, 0
  {
    SearchNext(root, store, p, k, visited, order);
    order', evidence := WalkNodeExplained(root, store, maxDepth, p + [k], visited, order);
    var w := WalkNode(store, maxDepth, store[k], |p| + 1, PathIds(root, store, p, |p| + 1), visited);
    ExplainedBack(root, store, maxDepth, p, k, w, order', evidence);
  }

  lemma ExplainedBack(root: Bundle, store: Store, maxDepth: int, p: seq<string>, k: string, w: Walked,
                      order: seq<Bundle>, evidence: seq<string>)
    requires IsPath(root, store, p) && Leads(End(root, store, p), store, k) && IsPath(root, store, p + [k])
    requires Explained(root, store, maxDepth, p + [k], |p| + 1, w, order, evidence)
    ensures Explained(root, store, maxDepth, p, |p| + 1, w, order, evidence)
  {
    SameIds(root, store, p, k);
    if w.outcome == Verified {
      SearchBack(root, store, p, k, w.visited, order);
    }
  }

  /** The references from `i` on resolve, to bundles whose ids are visited. */
  ghost predicate RefsVisited(store: Store, node: Bundle, i: nat, visited: set<string>) {
    forall j :: i <= j < |node.refs| ==>
      && Resolves(store, node.refs[j])
      && store[node.refs[j].parentId].bundleId.Some? && store[node.refs[j].parentId].bundleId.value in visited
  }

  lemma SearchNext(root: Bundle, store: Store, p: seq<string>, k: string, visited: set<string>, order: seq<Bundle>)
    requires IsPath(root, store, p) && Leads(End(root, store, p), store, k)
    requires Searching(root, store, p, |p| + 1, visited, order)
    ensures IsPath(root, store, p + [k]) && End(root, store, p + [k]) == store[k]
    ensures Searching(root, store, p + [k], |p| + 1, visited, order)
    ensures PathIds(root, store, p + [k], |p| + 1) == PathIds(root, store, p, |p| + 1)
  {
    ExtendPath(root, store, p, k);
    SameIds(root, store, p, k);
  }

  lemma SearchBack(root: Bundle, store: Store, p: seq<string>, k: string, visited: set<string>, order: seq<Bundle>)
    requires IsPath(root, store, p) && Leads(End(root, store, p), store, k) && IsPath(root, store, p + [k])
    requires Searching(root, store, p + [k], |p| + 1, visited, order)
    ensures Searching(root, store, p, |p| + 1, visited, order)
  {
    SameIds(root, store, p, k);
  }

  /** References are walked in order: those of the first list, and after them the others with the sets left behind. */
  lemma {:induction false} WalksInOrder(store: Store, maxDepth: int, first: seq<ParentRef>, others: seq<ParentRef>,
                                        depth: nat, visiting: set<string>, visited: set<string>)
    requires depth <= maxDepth
    ensures var w := WalkRefs(store, maxDepth, first, depth, visiting, visited);
            WalkRefs(store, maxDepth, first + others, depth, visiting, visited)
            == if w.outcome == Verified then WalkRefs(store, maxDepth, others, depth, w.visiting, w.visited) else w
    decreases |first|
  {
    if first == [] {
      assert first + others == others;
    } else {
      assert (first + others)[1..] == first[1..] + others;
      if Resolves(store, first[0]) {
        var w := WalkNode(store, maxDepth, store[first[0].parentId], depth + 1, visiting, visited);
        WalksInOrder(store, maxDepth, first[1..], others, depth, w.visiting, w.visited);
      }
    }
  }

  // ---------------------------------------------------------------- main results, for every store

  /** The first call of a run. */
  lemma RunExplained(root: Bundle, store: Store, maxDepth: int) returns (order: seq<Bundle>, evidence: seq<string>)
    ensures var w := WalkNode(store, maxDepth, root, 0, {}, {});
            && Explained(root, store, maxDepth, [], 0, w, order, evidence)
            && (w.outcome == Verified ==> root.bundleId.Some? && order != [] && order[|order| - 1] == root)
  {
    assert Claimed([]) == {};
    assert PathIds(root, store, [], 0) == {};
    order, evidence := WalkNodeExplained(root, store, maxDepth, [], {}, []);
  }

  /**
    For every store and every budget: "lineage-invalid" is right, and a path within the budget shows it;
    "resource-exhausted" means that a path has one level more than the budget, with different ids before its
    end; and "verified" is right exactly when reachable bundles that claim one id agree.
   */
  lemma AnswerIsRight(root: Bundle, store: Store, maxDepth: int)
    ensures Answer(root, store, maxDepth) == Verified ==> (Sound(root, store) <==> Agreeing(root, store))
    ensures Answer(root, store, maxDepth) == LineageInvalid ==>
              !Sound(root, store) && exists p :: IsPath(root, store, p) && |p| <= maxDepth && !Fine(root, store, p)
    ensures Answer(root, store, maxDepth) == ResourceExhausted ==>
              exists p :: IsPath(root, store, p) && Exceeds(p, maxDepth) && Apart(root, store, p, |p|)
  {
    var order, evidence := RunExplained(root, store, maxDepth);
    if Answer(root, store, maxDepth) == Verified {
      if Sound(root, store) {
        SoundAgrees(root, store);
      }
      if Agreeing(root, store) {
        TopologicalIsSound(root, store, order, |order| - 1);
      }
    }
  }

  lemma SoundAgrees(root: Bundle, store: Store)
    requires Sound(root, store)
    ensures Agreeing(root, store)
  {
    forall b | Reached(root, store, b) ensures Sound(b, store) {
      var p :| IsPath(root, store, p) && End(root, store, p) == b;
      SoundReaches(root, store, p);
    }
  }

  /** A sound lineage is verified whenever the budget has room for every path. */
  lemma SoundIsVerified(root: Bundle, store: Store, maxDepth: int)
    requires Sound(root, store) && forall p :: IsPath(root, store, p) ==> |p| <= maxDepth
    ensures Answer(root, store, maxDepth) == Verified
  {
    AnswerIsRight(root, store, maxDepth);
  }

  /** With a budget for all claimed ids the answer is right exactly when it is not a wrong "verified". */
  lemma NeverExhausted(root: Bundle, store: Store, maxDepth: int)
    requires maxDepth >= |ClaimedIds(root, store)|
    ensures Answer(root, store, maxDepth) != ResourceExhausted
    ensures Sound(root, store) ==> Answer(root, store, maxDepth) == Verified
  {
    AnswerIsRight(root, store, maxDepth);
    if Answer(root, store, maxDepth) == ResourceExhausted {
      var p :| IsPath(root, store, p) && Exceeds(p, maxDepth) && Apart(root, store, p, |p|);
      PathLength(root, store, p);
      assert false;
    }
  }

  /** What is finished before the root is all that the root reaches, if entries that claim one id are one bundle. */
  lemma {:induction false} ReachedIsFinished(root: Bundle, store: Store, order: seq<Bundle>, p: seq<string>)
    requires DistinctClaims(store) && Topological(store, order) && AllReached(root, store, order)
    requires order != [] && order[|order| - 1] == root
    requires IsPath(root, store, p) && p != []
    ensures End(root, store, p) in order[..|order| - 1]
    decreases |p|
  {
    var n, m := |p| - 1, |order| - 1;
    var b := At(root, store, p, n);
    var i := m;
    if n > 0 {
      PathPrefix(root, store, p, n);
      ReachedIsFinished(root, store, order, p[..n]);
      i :| 0 <= i < m && order[i] == b;
    }
    assert Settled(store, order[..i], b);
    assert Leads(b, store, p[n]);
    var t := store[p[n]];
    assert t.bundleId.value in Claimed(order[..i]);
    var c :| c in order[..i] && c.bundleId == t.bundleId;
    FinishedIsEntry(root, store, order, c);
  }

  /** A finished bundle other than the root is an entry of the store. */
  lemma FinishedIsEntry(root: Bundle, store: Store, order: seq<Bundle>, c: Bundle)
    requires Topological(store, order) && AllReached(root, store, order)
    requires order != [] && order[|order| - 1] == root && c in order[..|order| - 1]
    ensures c.bundleId.Some? && c.bundleId != root.bundleId
    ensures exists k :: k in store && store[k] == c
  {
    var m := |order| - 1;
    var i :| 0 <= i < m && order[i] == c;
    assert Settled(store, order[..i], c) && Settled(store, order[..m], root);
    assert Reached(root, store, order[i]);
    var p :| IsPath(root, store, p) && End(root, store, p) == c;
    assert p != [];
    assert Last(p) in store && store[Last(p)] == c;
  }

  /** If entries that claim one id are one bundle, under whatever keys, the answer decides soundness. */
  lemma DecidesOnDistinctClaims(root: Bundle, store: Store, maxDepth: int)
    requires DistinctClaims(store) && maxDepth >= |ClaimedIds(root, store)|
    ensures Answer(root, store, maxDepth) == if Sound(root, store) then Verified else LineageInvalid
  {
    NeverExhausted(root, store, maxDepth);
    AnswerIsRight(root, store, maxDepth);
    if Answer(root, store, maxDepth) == Verified {
      VerifiedOnDistinctClaims(root, store, maxDepth);
    }
  }

  lemma VerifiedOnDistinctClaims(root: Bundle, store: Store, maxDepth: int)
    requires DistinctClaims(store) && Answer(root, store, maxDepth) == Verified
    ensures Sound(root, store)
  {
    var order, _ := RunExplained(root, store, maxDepth);
    AnswerIsRight(root, store, maxDepth);
    forall b, c | Reached(root, store, b) && Reached(root, store, c) && b.bundleId.Some? && b.bundleId == c.bundleId
      ensures b == c {
      ReachedApart(root, store, order, b);
      ReachedApart(root, store, order, c);
    }
    assert Agreeing(root, store);
  }

  /** What is reached is the root, or an entry that claims another id. */
  lemma ReachedApart(root: Bundle, store: Store, order: seq<Bundle>, b: Bundle)
    requires DistinctClaims(store) && Topological(store, order) && AllReached(root, store, order)
    requires order != [] && order[|order| - 1] == root && Reached(root, store, b)
    ensures b == root || (b.bundleId != root.bundleId && exists k :: k in store && store[k] == b)
  {
    var p :| IsPath(root, store, p) && End(root, store, p) == b;
    if p != [] {
      ReachedIsFinished(root, store, order, p);
      FinishedIsEntry(root, store, order, b);
    }
  }

  /** The references of some reachable bundle that claims the id resolve, to bundles with visited ids. */
  ghost predicate Closed(root: Bundle, store: Store, visited: set<string>, id: string) {
    exists b :: Reached(root, store, b) && b.bundleId == Some(id) && RefsVisited(store, b, 0, visited)
  }

  /** A verified walk leaves nothing in `visiting`; what it visited contains the root and is closed under parents. */
  lemma VerifiedRestoresColours(root: Bundle, store: Store, maxDepth: int)
    requires Answer(root, store, maxDepth) == Verified
    ensures var w := WalkNode(store, maxDepth, root, 0, {}, {});
            && w.visiting == {}
            && root.bundleId.Some? && root.bundleId.value in w.visited
            && forall id :: id in w.visited ==> Closed(root, store, w.visited, id)
  {
    var order, _ := RunExplained(root, store, maxDepth);
    var w := WalkNode(store, maxDepth, root, 0, {}, {});
    assert root in order;
    forall id | id in w.visited ensures Closed(root, store, w.visited, id) {
      var b :| b in order && b.bundleId == Some(id);
      var k :| 0 <= k < |order| && order[k] == b;
      assert Settled(store, order[..k], order[k]) && Reached(root, store, order[k]);
      assert Claimed(order[..k]) <= Claimed(order);
      assert RefsVisited(store, b, 0, w.visited);
    }
  }

  // ---------------------------------------------------------------- bundles stored under their own ids

  /** With bundles under their own ids and a budget for all ids, the answer decides validity of the lineage. */
  lemma AnswerIsExact(root: Bundle, store: Store, maxDepth: int)
    requires Keyed(store) && maxDepth >= |Ids(root, store)|
    ensures Answer(root, store, maxDepth) == if ValidLineage(root, store) then Verified else LineageInvalid
  {
    KeyedClaims(root, store);
    DecidesOnDistinctClaims(root, store, maxDepth);
    SoundIffValid(root, store);
  }

  /** With bundles under their own ids, for every budget. */
  lemma AnswerIsRightOnKeyed(root: Bundle, store: Store, maxDepth: int)
    requires Keyed(store)
    ensures Answer(root, store, maxDepth) == Verified ==> ValidLineage(root, store)
    ensures Answer(root, store, maxDepth) == LineageInvalid ==> !ValidLineage(root, store)
    ensures Answer(root, store, maxDepth) == ResourceExhausted ==>
              maxDepth < 0 || exists q :: FromRoot(root, store, q) && |q| - 1 > maxDepth && NoRepeats(q[..|q| - 1])
  {
    AnswerIsRight(root, store, maxDepth);
    SoundIffValid(root, store);
    match Answer(root, store, maxDepth) {
      case Verified => VerifiedOnDistinctClaims(root, store, maxDepth);
      case LineageInvalid =>
      case ResourceExhausted =>
        if maxDepth >= 0 {
          var p :| IsPath(root, store, p) && Exceeds(p, maxDepth) && Apart(root, store, p, |p|);
          assert At(root, store, p, 0).bundleId.Some?;
          PathIsWalk(root, store, p);
          var q := [root.bundleId.value] + p;
          assert q[1..] == p;
          WalkIds(root, store, q);
          assert q[..|q| - 1] == q[..|p|];
        }
    }
  }
}
