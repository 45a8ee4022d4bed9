/**
  The order of references and the TypeScript search. In the order it is given the search may overlook
  a path: a finished id hides what lies behind it. Over all orders nothing is overlooked, so the
  answers over all orders say exactly which lineages are sound and within the depth budget.
 */
module LineageOrders {
  import opened Utf8
  import opened LineageGraph
  import TS = LineageTypeScript

  /** The same bundle with its references in another order. */
  ghost predicate SameButOrder(b: Bundle, c: Bundle) {
    c == b.(refs := c.refs) && multiset(b.refs) == multiset(c.refs)
  }

  /** The same bundles under the same keys, with the references of each in any order. */
  ghost predicate Reorders(root: Bundle, store: Store, root': Bundle, store': Store) {
    && SameButOrder(root, root')
    && store'.Keys == store.Keys
    && forall k :: k in store ==> SameButOrder(store[k], store'[k])
  }

  /** Verified whatever the order of the references. */
  ghost predicate AlwaysVerified(root: Bundle, store: Store, maxDepth: int) {
    forall root', store' :: Reorders(root, store, root', store') ==> TS.Answer(root', store', maxDepth) == TS.Verified
  }

  /** Every path stays within the budget, counted in parent levels. */
  ghost predicate WithinBudget(root: Bundle, store: Store, maxDepth: int) {
    forall p :: IsPath(root, store, p) ==> |p| <= maxDepth
  }

  // ---------------------------------------------------------------- reordering changes no path

  lemma SameRefs(store: Store, store': Store, b: Bundle, c: Bundle)
    requires SameButOrder(b, c)
    requires forall r :: Resolves(store, r) <==> Resolves(store', r)
    ensures forall k :: Leads(b, store, k) ==> Leads(c, store', k)
    ensures AllResolve(store, b.refs) ==> AllResolve(store', c.refs)
  {
    forall k | Leads(b, store, k) ensures Leads(c, store', k) {
      var j :| 0 <= j < |b.refs| && b.refs[j].parentId == k && Resolves(store, b.refs[j]);
      assert b.refs[j] in multiset(c.refs);
      var i :| 0 <= i < |c.refs| && c.refs[i] == b.refs[j];
    }
    if AllResolve(store, b.refs) {
      forall i | 0 <= i < |c.refs| ensures Resolves(store', c.refs[i]) {
        assert c.refs[i] in multiset(b.refs);
        var j :| 0 <= j < |b.refs| && b.refs[j] == c.refs[i];
      }
    }
  }

  lemma SameResolution(root: Bundle, store: Store, root': Bundle, store': Store)
    requires Reorders(root, store, root', store')
    ensures forall r :: Resolves(store, r) <==> Resolves(store', r)
  {
    forall r ensures Resolves(store, r) <==> Resolves(store', r) {
      assert r.parentId in store ==> SameButOrder(store[r.parentId], store'[r.parentId]);
    }
  }

  lemma SameAt(root: Bundle, store: Store, root': Bundle, store': Store, p: seq<string>, i: nat)
    requires Reorders(root, store, root', store') && Keys(store, p) && i <= |p|
    ensures Keys(store', p) && SameButOrder(At(root, store, p, i), At(root', store', p, i))
  {
  }

  lemma ReorderedPath(root: Bundle, store: Store, root': Bundle, store': Store, p: seq<string>)
    requires Reorders(root, store, root', store') && IsPath(root, store, p)
    ensures IsPath(root', store', p)
    ensures Fine(root, store, p) ==> Fine(root', store', p)
  {
    SameResolution(root, store, root', store');
    SameAt(root, store, root', store', p, 0);
    forall i | 0 <= i < |p| ensures Leads(At(root', store', p, i), store', p[i]) {
      SameAt(root, store, root', store', p, i);
      SameRefs(store, store', At(root, store, p, i), At(root', store', p, i));
      assert Leads(At(root, store, p, i), store, p[i]);
    }
    if Fine(root, store, p) {
      ReorderedApart(root, store, root', store', p, |p| + 1);
      SameAt(root, store, root', store', p, |p|);
      SameRefs(store, store', End(root, store, p), End(root', store', p));
    }
  }

  lemma ReorderedApart(root: Bundle, store: Store, root': Bundle, store': Store, p: seq<string>, n: nat)
    requires Reorders(root, store, root', store') && Keys(store, p) && Keys(store', p) && n <= |p| + 1
    requires Apart(root, store, p, n)
    ensures Apart(root', store', p, n)
  {
    forall i | 0 <= i < n ensures At(root', store', p, i).bundleId == At(root, store, p, i).bundleId {
      SameAt(root, store, root', store', p, i);
    }
    forall i, j | 0 <= i < j < n ensures At(root', store', p, i).bundleId != At(root', store', p, j).bundleId {
      assert At(root, store, p, i).bundleId != At(root, store, p, j).bundleId;
    }
  }

  /** Soundness and the length of paths do not depend on the order of references. */
  lemma ReorderedSound(root: Bundle, store: Store, root': Bundle, store': Store)
    requires Reorders(root, store, root', store') && Sound(root, store)
    ensures Sound(root', store')
  {
    forall p | IsPath(root', store', p) ensures Fine(root', store', p) {
      ReorderedPath(root', store', root, store, p);
      ReorderedPath(root, store, root', store', p);
    }
  }

  // ---------------------------------------------------------------- an order that meets a bad path first

  ghost predicate Bad(root: Bundle, store: Store, maxDepth: int, p: seq<string>) {
    IsPath(root, store, p) && (|p| > maxDepth || !Fine(root, store, p))
  }

  ghost predicate ShortestBad(root: Bundle, store: Store, maxDepth: int, p: seq<string>) {
    Bad(root, store, maxDepth, p) && forall n :: 0 <= n < |p| ==> !Bad(root, store, maxDepth, p[..n])
  }

  lemma {:induction false} FindShortest(root: Bundle, store: Store, maxDepth: int, p: seq<string>)
      returns (q: seq<string>)
    requires Bad(root, store, maxDepth, p)
    ensures ShortestBad(root, store, maxDepth, q)
    decreases |p|
  {
    if n :| 0 <= n < |p| && Bad(root, store, maxDepth, p[..n]) {
      q := FindShortest(root, store, maxDepth, p[..n]);
    } else {
      q := p;
    }
  }

  /** The reference at `c` is moved to the front. */
  function Front(b: Bundle, c: nat): Bundle {
    if c < |b.refs| then b.(refs := [b.refs[c]] + b.refs[..c] + b.refs[c + 1..]) else b
  }

  lemma FrontReorders(b: Bundle, c: nat)
    ensures SameButOrder(b, Front(b, c))
  {
    if c < |b.refs| {
      assert b.refs == b.refs[..c] + [b.refs[c]] + b.refs[c + 1..];
    }
  }

  /** The choice for the key: that of its first place on the path. */
  function Pick(p: seq<string>, choice: seq<nat>, k: string): nat
    requires |choice| == |p|
  {
    if p == [] then 0 else if p[0] == k then choice[0] else Pick(p[1..], choice[1..], k)
  }

  lemma {:induction false} PickAt(p: seq<string>, choice: seq<nat>, i: nat)
    requires |choice| == |p| && i < |p| && p[i] !in p[..i]
    ensures Pick(p, choice, p[i]) == choice[i]
  {
    if i > 0 {
      assert p[0] == p[..i][0];
      forall j | 1 <= j < i ensures p[j] != p[i] {
        assert p[j] == p[..i][j];
      }
      PickAt(p[1..], choice[1..], i - 1);
    }
  }

  function FrontAll(store: Store, p: seq<string>, choice: seq<nat>): Store
    requires |choice| == |p|
  {
    map k | k in store :: Front(store[k], Pick(p, choice, k))
  }

  /** Choices that lead along the path and, at its end, to a reference that does not resolve, if there is one. */
  ghost predicate Along(root: Bundle, store: Store, p: seq<string>, choice: seq<nat>)
    requires Keys(store, p)
  {
    && |choice| == |p| + 1
    && (forall i :: 0 <= i < |p| ==> Takes(At(root, store, p, i), store, choice[i], p[i]))
    && (!AllResolve(store, End(root, store, p).refs) ==> Fails(End(root, store, p), store, choice[|p|]))
  }

  predicate Takes(b: Bundle, store: Store, c: nat, k: string) {
    c < |b.refs| && b.refs[c].parentId == k && Resolves(store, b.refs[c])
  }

  predicate Fails(b: Bundle, store: Store, c: nat) {
    c < |b.refs| && !Resolves(store, b.refs[c])
  }

  ghost function TakeOne(b: Bundle, store: Store, k: string): (c: nat)
    requires Leads(b, store, k)
    ensures Takes(b, store, c, k)
  {
    var c :| 0 <= c < |b.refs| && b.refs[c].parentId == k && Resolves(store, b.refs[c]);
    c
  }

  lemma ChooseAlong(root: Bundle, store: Store, p: seq<string>) returns (choice: seq<nat>)
    requires IsPath(root, store, p)
    ensures Along(root, store, p, choice)
  {
    choice := seq(|p|, i requires 0 <= i < |p|
                  && Leads(At(root, store, p, i), store, p[i]) => TakeOne(At(root, store, p, i), store, p[i]));
    var b, last := End(root, store, p), 0;
    if !AllResolve(store, b.refs) {
      last :| 0 <= last < |b.refs| && !Resolves(store, b.refs[last]);
    }
    choice := choice + [last];
  }

  /** Before the end of a shortest bad path, ids are different, references resolve and the budget is kept. */
  lemma BeforeTheEnd(root: Bundle, store: Store, maxDepth: int, p: seq<string>)
    requires ShortestBad(root, store, maxDepth, p)
    ensures Apart(root, store, p, |p|) && (p != [] ==> |p| - 1 <= maxDepth)
  {
    if p != [] {
      var n := |p| - 1;
      PathPrefix(root, store, p, n);
      assert !Bad(root, store, maxDepth, p[..n]);
      ApartPrefix(root, store, p, n);
    }
  }

  lemma KeysApart(root: Bundle, store: Store, p: seq<string>, i: nat)
    requires Keys(store, p) && 0 < i <= |p| && Apart(root, store, p, i + 1)
    ensures p[i - 1] !in p[..i - 1]
  {
    forall j | 0 <= j < i - 1 ensures p[j] != p[i - 1] {
      assert At(root, store, p, j + 1).bundleId != At(root, store, p, i).bundleId;
    }
  }

  /** The bundle at position `i` of the reordered path has the chosen reference in front. */
  lemma FrontAt(root: Bundle, store: Store, p: seq<string>, choice: seq<nat>, i: nat)
    requires Keys(store, p) && |choice| == |p| + 1 && i <= |p| && Apart(root, store, p, i + 1)
    ensures Keys(FrontAll(store, p, choice[1..]), p)
    ensures At(Front(root, choice[0]), FrontAll(store, p, choice[1..]), p, i) == Front(At(root, store, p, i), choice[i])
  {
    if i > 0 {
      KeysApart(root, store, p, i);
      PickAt(p, choice[1..], i - 1);
    }
  }

  lemma FrontAllReorders(root: Bundle, store: Store, p: seq<string>, choice: seq<nat>)
    requires |choice| == |p| + 1
    ensures Reorders(root, store, Front(root, choice[0]), FrontAll(store, p, choice[1..]))
  {
    FrontReorders(root, choice[0]);
    forall k | k in store ensures SameButOrder(store[k], FrontAll(store, p, choice[1..])[k]) {
      FrontReorders(store[k], Pick(p, choice[1..], k));
    }
  }

  /** What the search answers at position `i` of the path, with the choices in front and nothing visited. */
  ghost function AnswerAt(root: Bundle, store: Store, maxDepth: int, p: seq<string>, choice: seq<nat>,
                          i: nat): TS.Outcome
    requires Keys(store, p) && |choice| == |p| + 1 && i <= |p|
  {
    var root', store' := Front(root, choice[0]), FrontAll(store, p, choice[1..]);
    assert Keys(store', p);
    TS.WalkNode(store', maxDepth, At(root', store', p, i), i, PathIds(root, store, p, i), {}).outcome
  }

  /** The search walks down the path and ends there without "verified". */
  lemma {:induction false} WalksDown(root: Bundle, store: Store, maxDepth: int, p: seq<string>, choice: seq<nat>,
                                     i: nat)
    requires Keys(store, p) && Apart(root, store, p, |p|) && Along(root, store, p, choice) && i <= |p|
    requires |p| > maxDepth || !Apart(root, store, p, |p| + 1) || !AllResolve(store, End(root, store, p).refs)
    ensures AnswerAt(root, store, maxDepth, p, choice, i) != TS.Verified
    decreases |p| - i
  {
    if i < |p| {
      WalksDown(root, store, maxDepth, p, choice, i + 1);
      OneDown(root, store, maxDepth, p, choice, i);
    } else {
      EndsThere(root, store, maxDepth, p, choice);
    }
  }

  /** A node whose first reference resolves answers no better than the parent behind it. */
  lemma NodeGoesDown(store: Store, maxDepth: int, b: Bundle, depth: nat, visiting: set<string>)
    requires b.bundleId.Some? && b.bundleId.value !in visiting && b.refs != [] && Resolves(store, b.refs[0])
    requires TS.WalkNode(store, maxDepth, store[b.refs[0].parentId], depth + 1, visiting + {b.bundleId.value},
                         {}).outcome != TS.Verified
    ensures TS.WalkNode(store, maxDepth, b, depth, visiting, {}).outcome != TS.Verified
  {
  }

  lemma NodeStops(store: Store, maxDepth: int, b: Bundle, depth: nat, visiting: set<string>)
    requires depth > maxDepth || b.bundleId.None? || b.bundleId.value in visiting
             || (b.refs != [] && !Resolves(store, b.refs[0]))
    ensures TS.WalkNode(store, maxDepth, b, depth, visiting, {}).outcome != TS.Verified
  {
  }

  lemma OneDown(root: Bundle, store: Store, maxDepth: int, p: seq<string>, choice: seq<nat>, i: nat)
    requires Keys(store, p) && Along(root, store, p, choice) && i < |p| && Apart(root, store, p, |p|)
    requires AnswerAt(root, store, maxDepth, p, choice, i + 1) != TS.Verified
    ensures AnswerAt(root, store, maxDepth, p, choice, i) != TS.Verified
  {
    var root', store' := Front(root, choice[0]), FrontAll(store, p, choice[1..]);
    StepDown(root, store, p, i);
    FrontAt(root, store, p, choice, i);
    var b := At(root, store, p, i);
    assert Takes(b, store, choice[i], p[i]);
    FirstInFront(root, store, p, choice, b, choice[i]);
    NodeGoesDown(store', maxDepth, Front(b, choice[i]), i, PathIds(root, store, p, i));
  }

  lemma FirstInFront(root: Bundle, store: Store, p: seq<string>, choice: seq<nat>, b: Bundle, c: nat)
    requires |choice| == |p| + 1 && c < |b.refs|
    ensures Front(b, c).refs != [] && Front(b, c).refs[0] == b.refs[c] && Front(b, c).bundleId == b.bundleId
    ensures Resolves(FrontAll(store, p, choice[1..]), b.refs[c]) <==> Resolves(store, b.refs[c])
  {
    FrontAllReorders(root, store, p, choice);
    SameResolution(root, store, Front(root, choice[0]), FrontAll(store, p, choice[1..]));
  }

  lemma EndsThere(root: Bundle, store: Store, maxDepth: int, p: seq<string>, choice: seq<nat>)
    requires Keys(store, p) && Apart(root, store, p, |p|) && Along(root, store, p, choice)
    requires |p| > maxDepth || !Apart(root, store, p, |p| + 1) || !AllResolve(store, End(root, store, p).refs)
    ensures AnswerAt(root, store, maxDepth, p, choice, |p|) != TS.Verified
  {
    var root', store' := Front(root, choice[0]), FrontAll(store, p, choice[1..]);
    var b := End(root, store, p);
    EndInFront(root, store, p, choice);
    if b.bundleId.Some? {
      OneMore(root, store, p);
      if Apart(root, store, p, |p| + 1) && |p| <= maxDepth {
        FrontAt(root, store, p, choice, |p|);
        assert Fails(b, store, choice[|p|]);
        FirstInFront(root, store, p, choice, b, choice[|p|]);
      }
    }
    NodeStops(store', maxDepth, At(root', store', p, |p|), |p|, PathIds(root, store, p, |p|));
  }

  lemma EndInFront(root: Bundle, store: Store, p: seq<string>, choice: seq<nat>)
    requires Keys(store, p) && |choice| == |p| + 1
    ensures Keys(FrontAll(store, p, choice[1..]), p)
    ensures At(Front(root, choice[0]), FrontAll(store, p, choice[1..]), p, |p|).bundleId == End(root, store, p).bundleId
  {
  }

  lemma StepDown(root: Bundle, store: Store, p: seq<string>, i: nat)
    requires Keys(store, p) && Apart(root, store, p, |p|) && i < |p|
    ensures Apart(root, store, p, i + 1) && At(root, store, p, i).bundleId.Some?
    ensures At(root, store, p, i).bundleId.value !in PathIds(root, store, p, i)
    ensures PathIds(root, store, p, i + 1) == PathIds(root, store, p, i) + {At(root, store, p, i).bundleId.value}
  {
    var id := At(root, store, p, i).bundleId.value;
    forall j | 0 <= j < i ensures At(root, store, p, j).bundleId != Some(id) {
      assert At(root, store, p, j).bundleId != At(root, store, p, i).bundleId;
    }
    forall x ensures x in PathIds(root, store, p, i + 1) <==> x in PathIds(root, store, p, i) || x == id {
      if x in PathIds(root, store, p, i + 1) {
        var j :| 0 <= j < i + 1 && At(root, store, p, j).bundleId == Some(x);
      }
      assert At(root, store, p, i).bundleId == Some(id);
    }
  }

  /** Whatever is wrong with a lineage, some order of its references brings it up. */
  lemma BringsUp(root: Bundle, store: Store, maxDepth: int, p: seq<string>) returns (root': Bundle, store': Store)
    requires Bad(root, store, maxDepth, p)
    ensures Reorders(root, store, root', store') && TS.Answer(root', store', maxDepth) != TS.Verified
  {
    var q := FindShortest(root, store, maxDepth, p);
    var choice := ChooseAlong(root, store, q);
    root', store' := Front(root, choice[0]), FrontAll(store, q, choice[1..]);
    FrontAllReorders(root, store, q, choice);
    BeforeTheEnd(root, store, maxDepth, q);
    WalksDown(root, store, maxDepth, q, choice, 0);
    assert PathIds(root, store, q, 0) == {};
  }

  // ---------------------------------------------------------------- main results

  /**
    For every store and budget: the search answers "verified" in every order of references exactly when
    the lineage is sound and no path has more levels than the budget.
   */
  lemma AlwaysVerifiedIff(root: Bundle, store: Store, maxDepth: int)
    ensures AlwaysVerified(root, store, maxDepth) <==> Sound(root, store) && WithinBudget(root, store, maxDepth)
  {
    if Sound(root, store) && WithinBudget(root, store, maxDepth) {
      forall root', store' | Reorders(root, store, root', store')
        ensures TS.Answer(root', store', maxDepth) == TS.Verified {
        ReorderedSound(root, store, root', store');
        forall p | IsPath(root', store', p) ensures |p| <= maxDepth {
          ReorderedPath(root', store', root, store, p);
        }
        TS.SoundIsVerified(root', store', maxDepth);
      }
    } else {
      var p :| IsPath(root, store, p) && (|p| > maxDepth || !Fine(root, store, p));
      assert Bad(root, store, maxDepth, p);
      var root', store' := BringsUp(root, store, maxDepth, p);
    }
  }

  /** A sound lineage runs out of budget in some order exactly when some path has more levels than the budget. */
  lemma ExhaustedInSomeOrderIff(root: Bundle, store: Store, maxDepth: int)
    requires Sound(root, store)
    ensures (exists root', store' ::
               Reorders(root, store, root', store') && TS.Answer(root', store', maxDepth) == TS.ResourceExhausted)
            <==> !WithinBudget(root, store, maxDepth)
  {
    AlwaysVerifiedIff(root, store, maxDepth);
    forall root', store' | Reorders(root, store, root', store')
      ensures TS.Answer(root', store', maxDepth) != TS.LineageInvalid {
      ReorderedSound(root, store, root', store');
      TS.AnswerIsRight(root', store', maxDepth);
    }
  }

  /**
    With bundles under their own ids: the budget bounds every walk of a valid lineage exactly when the
    search verifies it in every order of references.
   */
  lemma BudgetBoundsWalksIff(root: Bundle, store: Store, maxDepth: int)
    requires Keyed(store) && ValidLineage(root, store)
    ensures (forall q :: FromRoot(root, store, q) ==> |q| - 1 <= maxDepth) <==> AlwaysVerified(root, store, maxDepth)
  {
    SoundIffValid(root, store);
    AlwaysVerifiedIff(root, store, maxDepth);
    if WithinBudget(root, store, maxDepth) {
      forall q | FromRoot(root, store, q) ensures |q| - 1 <= maxDepth {
        SoundWalk(root, store, q);
      }
    } else {
      var p :| IsPath(root, store, p) && |p| > maxDepth;
      ValidPath(root, store, p);
      assert FromRoot(root, store, [root.bundleId.value] + p);
    }
  }
}
