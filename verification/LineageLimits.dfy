/**
  Where the natural claims about the lineage walks stop: which budgets bound all walks, which stores
  the TypeScript search answers rightly on, and a graph that Go refuses.
 */
module LineageLimits {
  import opened Utf8
  import opened LineageGraph
  import TS = LineageTypeScript
  import GO = LineageGo
  import PY = LineagePython

  /** A bundle whose content digest, and every cited digest, is "d". */
  function Node(id: string, parents: seq<string>): Bundle {
    Bundle(Some(id), seq(|parents|, i requires 0 <= i < |parents| => ParentRef(parents[i], "d", "A")), Some("d"), "A",
           "A", "")
  }

  // ---------------------------------------------------------------- the depth budget

  ghost predicate WalksWithin(root: Bundle, store: Store, maxDepth: int) {
    forall q :: FromRoot(root, store, q) ==> |q| - 1 <= maxDepth
  }

  /** Every verified lineage over `n` ids, with bundles under their own ids, stays within the budget. */
  ghost predicate BoundsAll(n: nat, maxDepth: int) {
    forall root, store: Store ::
      Keyed(store) && |Ids(root, store)| == n && TS.Answer(root, store, maxDepth) == TS.Verified ==>
        WalksWithin(root, store, maxDepth)
  }

  function Name(i: nat): string {
    seq(i, _ => 'x')
  }

  /**
    The bundles of a lineage that outruns the budget `m`: a chain from 0 to `m` + 1, in which the root
    cites 2 before it cites 1.
   */
  function ChainBundle(m: nat, i: nat): Bundle {
    Node(Name(i), if i == 0 then [Name(2), Name(1)] else if i <= m then [Name(i + 1)] else [])
  }

  /** The bundles from 1 to `n` - 1; those after `m` + 1 stand apart. */
  function ChainStore(m: nat, n: nat): Store {
    map k | k in Names(1, n) :: ChainBundle(m, |k|)
  }

  function Names(from: nat, to: nat): set<string> {
    set i | from <= i < to :: Name(i)
  }

  lemma {:induction false} CountNames(n: nat)
    ensures |Names(0, n)| == n
  {
    if n > 0 {
      CountNames(n - 1);
      forall i | 0 <= i < n - 1 ensures Name(i) != Name(n - 1) {
        assert |Name(i)| == i && |Name(n - 1)| == n - 1;
      }
      assert Names(0, n) == Names(0, n - 1) + {Name(n - 1)};
    }
  }

  lemma ChainEntry(m: nat, n: nat, i: nat)
    requires 1 <= i < n
    ensures Name(i) in ChainStore(m, n) && ChainStore(m, n)[Name(i)] == ChainBundle(m, i)
  {
    assert Name(i) in Names(1, n) && |Name(i)| == i;
  }

  lemma ChainIds(m: nat, n: nat)
    requires n >= 1
    ensures Keyed(ChainStore(m, n)) && |Ids(ChainBundle(m, 0), ChainStore(m, n))| == n
  {
    var store := ChainStore(m, n);
    forall k | k in store ensures store[k].bundleId == Some(k) {
      var i :| 1 <= i < n && k == Name(i);
      ChainEntry(m, n, i);
    }
    assert Ids(ChainBundle(m, 0), store) == Names(0, n) by {
      assert store.Keys == Names(1, n);
      forall k | k in Names(0, n) ensures k in Names(1, n) || k == Name(0) {
        var i :| 0 <= i < n && k == Name(i);
        assert i > 0 ==> Name(i) in Names(1, n);
      }
      assert Name(0) in Names(0, n);
    }
    CountNames(n);
  }

  /** The chain from `i` on is verified at depth `i` - 1. */
  lemma {:induction false} ChainVerified(m: nat, n: nat, i: nat, visiting: set<string>)
    requires 2 <= i <= m + 1 < n && forall j :: i <= j ==> Name(j) !in visiting
    ensures var w := TS.WalkNode(ChainStore(m, n), m, ChainBundle(m, i), i - 1, visiting, {});
            w.outcome == TS.Verified && w.visiting == visiting && Name(i) in w.visited
    decreases m + 1 - i
  {
    var store, b := ChainStore(m, n), ChainBundle(m, i);
    var active := visiting + {Name(i)};
    assert active - {Name(i)} == visiting;
    if i <= m {
      var r := b.refs[0];
      assert b.refs[1..] == [];
      ChainEntry(m, n, i + 1);
      forall j | i + 1 <= j ensures Name(j) !in active {
        assert |Name(j)| == j && |Name(i)| == i;
      }
      ChainVerified(m, n, i + 1, active);
      assert Resolves(store, r);
      var w := TS.WalkNode(store, m, store[r.parentId], i, active, {});
      assert TS.WalkRefs(store, m, [], i - 1, w.visiting, w.visited) == w;
    }
  }

  /** The root reaches 2 first; when it comes to 1, what lies behind is finished already. */
  lemma ChainAnswer(m: nat, n: nat)
    requires 2 <= m && m + 2 <= n
    ensures TS.Answer(ChainBundle(m, 0), ChainStore(m, n), m) == TS.Verified
  {
    var store, root, one := ChainStore(m, n), ChainBundle(m, 0), ChainBundle(m, 1);
    ChainEntry(m, n, 1);
    ChainEntry(m, n, 2);
    forall j | 1 <= j ensures Name(j) !in {Name(0)} {
      assert |Name(j)| == j && |Name(0)| == 0;
    }
    ChainVerified(m, n, 2, {Name(0)});
    var w := TS.WalkNode(store, m, store[Name(2)], 1, {Name(0)}, {});
    assert Name(2) !in {Name(0), Name(1)} by {
      assert |Name(2)| == 2 && |Name(1)| == 1 && |Name(0)| == 0;
    }
    assert {Name(0)} + {Name(1)} == {Name(0), Name(1)};
    assert one.refs[0].parentId == Name(2) && one.refs[1..] == [];
    assert TS.WalkNode(store, m, store[Name(2)], 2, {Name(0), Name(1)}, w.visited).outcome == TS.Verified;
    assert TS.WalkRefs(store, m, one.refs, 1, {Name(0), Name(1)}, w.visited).outcome == TS.Verified;
    assert TS.WalkNode(store, m, one, 1, {Name(0)}, w.visited).outcome == TS.Verified;
    var rest := root.refs[1..];
    assert rest[0].parentId == Name(1) && rest[1..] == [];
    assert TS.WalkRefs(store, m, rest, 0, {Name(0)}, w.visited).outcome == TS.Verified;
    assert root.refs[0].parentId == Name(2) && Resolves(store, root.refs[0]);
    assert TS.WalkRefs(store, m, root.refs, 0, {Name(0)}, {}) == TS.WalkRefs(store, m, rest, 0, {Name(0)}, w.visited);
    assert {} + {Name(0)} == {Name(0)};
  }

  lemma ChainWalk(m: nat, n: nat) returns (q: seq<string>)
    requires 1 <= m && m + 2 <= n
    ensures FromRoot(ChainBundle(m, 0), ChainStore(m, n), q) && |q| - 1 == m + 1
  {
    var root, store := ChainBundle(m, 0), ChainStore(m, n);
    q := seq(m + 2, i requires 0 <= i < m + 2 => Name(i));
    forall i | 0 <= i < |q| ensures Known(root, store, q[i]) && NodeOf(root, store, q[i]) == ChainBundle(m, i) {
      assert |Name(i)| == i && |Name(0)| == 0;
      if i > 0 {
        ChainEntry(m, n, i);
      }
    }
    forall i | 0 <= i < |q| - 1 ensures Cites(NodeOf(root, store, q[i]), q[i + 1]) {
      var b := ChainBundle(m, i);
      assert b.refs[|b.refs| - 1].parentId == Name(i + 1);
    }
  }

  /**
    The memo weakens the depth budget: for every budget of at least two, and every number of ids beyond
    the budget by two, a lineage is verified although it has a walk with more levels than the budget.
   */
  lemma MemoOutrunsBudget(maxDepth: nat, n: nat)
    requires 2 <= maxDepth && maxDepth + 2 <= n
    ensures exists root, store: Store ::
      Keyed(store) && |Ids(root, store)| == n && TS.Answer(root, store, maxDepth) == TS.Verified
          && !WalksWithin(root, store, maxDepth)
  {
    ChainIds(maxDepth, n);
    ChainAnswer(maxDepth, n);
    var q := ChainWalk(maxDepth, n);
    assert !WalksWithin(ChainBundle(maxDepth, 0), ChainStore(maxDepth, n), maxDepth);
  }

  /** A bundle with references is not verified when the budget is used up. */
  lemma NoReferencesLeft(store: Store, maxDepth: nat, refs: seq<ParentRef>, visiting: set<string>, visited: set<string>)
    requires refs != []
    ensures TS.WalkRefs(store, maxDepth, refs, maxDepth, visiting, visited).outcome != TS.Verified
  {
  }

  /** With a budget of one, no parent of a verified root has references. */
  lemma {:induction false} ParentsAreLast(store: Store, refs: seq<ParentRef>, visiting: set<string>,
                                          visited: set<string>)
    requires Keyed(store) && TS.WalkRefs(store, 1, refs, 0, visiting, visited).outcome == TS.Verified
    requires forall k :: k in visited ==> k in store && store[k].refs == []
    ensures forall j :: 0 <= j < |refs| ==> refs[j].parentId in store && store[refs[j].parentId].refs == []
    decreases |refs|
  {
    if refs != [] {
      var b := store[refs[0].parentId];
      var w := TS.WalkNode(store, 1, b, 1, visiting, visited);
      if b.refs != [] && b.bundleId.value !in visited {
        NoReferencesLeft(store, 1, b.refs, visiting + {b.bundleId.value}, visited);
      }
      ParentsAreLast(store, refs[1..], w.visiting, w.visited);
      assert refs == [refs[0]] + refs[1..];
    }
  }

  lemma SmallBudget(root: Bundle, store: Store, maxDepth: int)
    requires Keyed(store) && maxDepth < 2 && TS.Answer(root, store, maxDepth) == TS.Verified
    ensures WalksWithin(root, store, maxDepth)
  {
    TS.AnswerIsRightOnKeyed(root, store, maxDepth);
    forall q | FromRoot(root, store, q) ensures |q| - 1 <= maxDepth {
      if |q| > 1 {
        forall i | 0 <= i < |q| - 1 ensures NodeOf(root, store, q[i]).refs != [] {
          assert Cites(NodeOf(root, store, q[i]), q[i + 1]);
        }
        assert Cites(NodeOf(root, store, q[0]), q[1]);
        if maxDepth == 0 {
          NoReferencesLeft(store, 0, root.refs, {} + {root.bundleId.value}, {});
        }
        assert maxDepth == 1;
        assert TS.WalkRefs(store, 1, root.refs, 0, {} + {root.bundleId.value}, {}).outcome == TS.Verified;
        ParentsAreLast(store, root.refs, {} + {root.bundleId.value}, {});
        assert NoRepeats(q);
        assert NodeOf(root, store, q[1]).refs == [];
      }
    }
  }

  /**
    The budget bounds the walks of all verified lineages over `n` ids exactly when it is below two or at
    least `n` - 1.
   */
  lemma BudgetBoundsIff(n: nat, maxDepth: int)
    ensures BoundsAll(n, maxDepth) <==> maxDepth < 2 || n <= maxDepth + 1
  {
    if maxDepth < 2 || n <= maxDepth + 1 {
      forall root, store: Store | Keyed(store) && |Ids(root, store)| == n
          && TS.Answer(root, store, maxDepth) == TS.Verified
        ensures WalksWithin(root, store, maxDepth)
      {
        if maxDepth < 2 {
          SmallBudget(root, store, maxDepth);
        } else {
          TS.AnswerIsRightOnKeyed(root, store, maxDepth);
          forall q | FromRoot(root, store, q) ensures |q| - 1 <= maxDepth {
            SimpleWalkLength(root, store, q);
          }
        }
      }
    } else {
      MemoOutrunsBudget(maxDepth, n);
    }
  }

  // ---------------------------------------------------------------- bundles that claim one id

  ghost predicate Citable(b: Bundle) {
    b.bundleId.Some? && b.sealDigest.Some?
  }

  /** Of any two citable entries that claim one id, both are sound or neither is. */
  ghost predicate EntriesAgree(store: Store) {
    forall j, k ::
      j in store && k in store && Citable(store[j]) && Citable(store[k])
      && store[j].bundleId == store[k].bundleId ==>
        (Sound(store[j], store) <==> Sound(store[k], store))
  }

  ghost predicate Unclaimed(store: Store, id: Option<string>) {
    forall k :: k in store && store[k].bundleId.Some? ==> store[k].bundleId != id
  }

  /** The search decides soundness for every root with an id of its own and every budget with room for all ids. */
  ghost predicate DecidesAll(store: Store) {
    forall root: Bundle, maxDepth: int :: Unclaimed(store, root.bundleId) && maxDepth >= |ClaimedIds(root, store)| ==>
      TS.Answer(root, store, maxDepth) == if Sound(root, store) then TS.Verified else TS.LineageInvalid
  }

  lemma {:induction false} LongerThanAll(s: set<string>) returns (n: nat)
    ensures forall x :: x in s ==> |x| < n
  {
    if s == {} {
      n := 0;
    } else {
      var x :| x in s;
      n := LongerThanAll(s - {x});
      n := if |x| < n then n else |x| + 1;
    }
  }

  lemma EntriesAgreeing(root: Bundle, store: Store)
    requires EntriesAgree(store) && Unclaimed(store, root.bundleId)
    ensures Agreeing(root, store)
  {
    forall b | Reached(root, store, b) && b.bundleId.Some?
      ensures b == root || exists k :: k in store && store[k] == b && Citable(store[k]) {
      var p :| IsPath(root, store, p) && End(root, store, p) == b;
      if p != [] {
        assert Leads(At(root, store, p, |p| - 1), store, p[|p| - 1]);
      }
    }
  }

  /** A root of its own that cites the sound entry before the other one with the same id. */
  lemma HidesTheOther(store: Store, j: string, k: string) returns (root: Bundle)
    requires j in store && k in store && Citable(store[j]) && Citable(store[k])
             && store[j].bundleId == store[k].bundleId
    requires Sound(store[j], store) && !Sound(store[k], store)
    ensures Unclaimed(store, root.bundleId) && !Sound(root, store)
    ensures TS.Answer(root, store, |ClaimedIds(root, store)|) == TS.Verified
  {
    var id := NewId(store);
    var first, second := ParentRef(j, store[j].sealDigest.value, ""), ParentRef(k, store[k].sealDigest.value, "");
    root := Bundle(Some(id), [first, second], None, "", "", "");
    var before := root.(refs := [first]);
    assert root.refs[..1] == before.refs && Resolves(store, first) && Resolves(store, second);
    SoundBelow(before, store, j);
    RoomForOne(root, before, store);
    TS.NeverExhausted(before, store, |ClaimedIds(root, store)|);
    SecondIsSkipped(root, before, store, |ClaimedIds(root, store)|);
    assert root.refs[1] == second;
    UnsoundBelow(root, store, 1);
  }

  lemma NewId(store: Store) returns (id: string)
    ensures Unclaimed(store, Some(id))
  {
    var n := LongerThanAll(set x | x in store && store[x].bundleId.Some? :: store[x].bundleId.value);
    id := Name(n);
    assert |id| == n;
  }

  lemma RoomForOne(root: Bundle, before: Bundle, store: Store)
    requires root.bundleId.Some? && before.bundleId == root.bundleId
    ensures ClaimedIds(before, store) == ClaimedIds(root, store) && |ClaimedIds(root, store)| >= 1
  {
    assert root in [root] && before in [before];
    assert Claimed([root]) == {root.bundleId.value} == Claimed([before]);
    SubsetCount({root.bundleId.value}, ClaimedIds(root, store));
  }

  lemma UnsoundBelow(root: Bundle, store: Store, i: nat)
    requires i < |root.refs| && Resolves(store, root.refs[i]) && !Sound(store[root.refs[i].parentId], store)
    ensures !Sound(root, store)
  {
    var k := root.refs[i].parentId;
    assert Leads(root, store, k);
    OneStep(root, store, k);
    if Sound(root, store) {
      SoundReaches(root, store, [k]);
      assert false;
    }
  }

  lemma {:induction false} SubsetCount(a: set<string>, b: set<string>)
    requires a <= b
    ensures |a| <= |b|
  {
    assert b == a + (b - a);
  }

  /** A root with a new id is sound above one sound entry. */
  lemma SoundBelow(root: Bundle, store: Store, j: string)
    requires j in store && Sound(store[j], store) && root.bundleId.Some? && Unclaimed(store, root.bundleId)
    requires |root.refs| == 1 && root.refs[0].parentId == j && Resolves(store, root.refs[0])
    ensures Sound(root, store)
  {
    forall p | IsPath(root, store, p) ensures Fine(root, store, p) {
      FineOver(root, store, p);
    }
  }

  lemma FineOver(root: Bundle, store: Store, p: seq<string>)
    requires |root.refs| == 1 && Resolves(store, root.refs[0]) && Sound(store[root.refs[0].parentId], store)
    requires root.bundleId.Some? && Unclaimed(store, root.bundleId) && IsPath(root, store, p)
    ensures Fine(root, store, p)
  {
    if p != [] {
      OnlyParent(root, store, p);
      FineBelow(root, store, p);
    }
  }

  lemma OnlyParent(root: Bundle, store: Store, p: seq<string>)
    requires |root.refs| == 1 && root.refs[0].parentId in store && Sound(store[root.refs[0].parentId], store)
    requires IsPath(root, store, p) && p != []
    ensures IsPath(store[p[0]], store, p[1..]) && Fine(store[p[0]], store, p[1..])
  {
    assert Leads(At(root, store, p, 0), store, p[0]);
    PathSuffix(root, store, p, 1);
  }

  lemma FineBelow(root: Bundle, store: Store, p: seq<string>)
    requires IsPath(root, store, p) && p != [] && root.bundleId.Some? && Unclaimed(store, root.bundleId)
    requires IsPath(store[p[0]], store, p[1..]) && Fine(store[p[0]], store, p[1..])
    ensures Fine(root, store, p)
  {
    OtherIds(root, store, p);
    ApartFrom(root, store, p);
    SuffixAt(root, store, p, 1);
    assert At(store[p[0]], store, p[1..], |p| - 1) == End(root, store, p);
  }

  lemma OtherIds(root: Bundle, store: Store, p: seq<string>)
    requires Keys(store, p) && p != [] && Keys(store, p[1..]) && root.bundleId.Some? && Unclaimed(store, root.bundleId)
    ensures forall i :: 0 <= i < |p| ==> At(store[p[0]], store, p[1..], i).bundleId != root.bundleId
  {
    forall i | 0 <= i < |p| ensures At(store[p[0]], store, p[1..], i).bundleId != root.bundleId {
      assert i > 0 ==> p[1..][i - 1] in store;
    }
  }

  lemma SecondIsSkipped(root: Bundle, before: Bundle, store: Store, maxDepth: int)
    requires |root.refs| == 2 && before == root.(refs := root.refs[..1]) && root.bundleId.Some? && maxDepth >= 1
    requires Resolves(store, root.refs[0]) && Resolves(store, root.refs[1]) && Unclaimed(store, root.bundleId)
    requires store[root.refs[0].parentId].bundleId.Some?
             && store[root.refs[0].parentId].bundleId == store[root.refs[1].parentId].bundleId
    requires TS.Answer(before, store, maxDepth) == TS.Verified
    ensures TS.Answer(root, store, maxDepth) == TS.Verified
  {
    var id := root.bundleId.value;
    var b := store[root.refs[1].parentId];
    assert before.refs[0] == root.refs[0] && before.refs[1..] == [];
    assert TS.WalkRefs(store, maxDepth, before.refs, 0, {} + {id}, {}).outcome == TS.Verified;
    assert {} + {id} == {id};
    var w := TS.WalkNode(store, maxDepth, store[root.refs[0].parentId], 1, {id}, {});
    FirstIsVisited(root, store, maxDepth);
    var rest := root.refs[1..];
    assert rest[0] == root.refs[1] && rest[1..] == [];
    assert TS.WalkNode(store, maxDepth, b, 1, w.visiting, w.visited).outcome == TS.Verified;
    assert TS.WalkRefs(store, maxDepth, rest, 0, w.visiting, w.visited).outcome == TS.Verified;
    assert TS.WalkRefs(store, maxDepth, root.refs, 0, {id}, {})
           == TS.WalkRefs(store, maxDepth, rest, 0, w.visiting, w.visited);
  }

  /** After the first parent is verified only the root is being visited, and the parent's id is finished. */
  lemma FirstIsVisited(root: Bundle, store: Store, maxDepth: int)
    requires root.bundleId.Some? && root.refs != [] && Resolves(store, root.refs[0]) && maxDepth >= 1
    ensures var parent := store[root.refs[0].parentId];
            var w := TS.WalkNode(store, maxDepth, parent, 1, {root.bundleId.value}, {});
            w.outcome == TS.Verified ==>
              w.visiting == {root.bundleId.value} && parent.bundleId.Some? && parent.bundleId.value in w.visited
  {
    var p := [root.refs[0].parentId];
    assert Leads(root, store, p[0]);
    OneStep(root, store, p[0]);
    assert At(root, store, p, 0) == root;
    assert Claimed([]) == {};
    assert PathIds(root, store, p, 1) == {root.bundleId.value};
    var order, _ := TS.WalkNodeExplained(root, store, maxDepth, p, {}, []);
  }

  /**
    The search decides soundness over a store, for every root with an id of its own, exactly when the
    entries that claim one id agree; a disagreement is hidden by citing the sound entry first.
   */
  lemma DecidesAllIff(store: Store)
    ensures DecidesAll(store) <==> EntriesAgree(store)
  {
    if EntriesAgree(store) {
      forall root: Bundle, maxDepth: int | Unclaimed(store, root.bundleId) && maxDepth >= |ClaimedIds(root, store)|
        ensures TS.Answer(root, store, maxDepth) == if Sound(root, store) then TS.Verified else TS.LineageInvalid
      {
        EntriesAgreeing(root, store);
        TS.NeverExhausted(root, store, maxDepth);
        TS.AnswerIsRight(root, store, maxDepth);
      }
    } else {
      var j, k :| j in store && k in store && Citable(store[j]) && Citable(store[k])
          && store[j].bundleId == store[k].bundleId
                  && Sound(store[j], store) && !Sound(store[k], store);
      var root := HidesTheOther(store, j, k);
    }
  }

  /** Two entries that claim one id, one without references and one with a reference that resolves nowhere. */
  lemma AliasedIdsHideReferences()
    ensures exists store: Store, j, k ::
      && j in store && k in store && Citable(store[j]) && Citable(store[k]) && store[j].bundleId == store[k].bundleId
      && Sound(store[j], store) && !AllResolve(store, store[k].refs) && !DecidesAll(store)
  {
    var x, y := Node("n", []), Node("n", ["missing"]);
    var store: Store := map["x" := x, "y" := y];
    assert "x" != "y" && "missing" != "x" && "missing" != "y";
    assert store["x"] == x && store["y"] == y;
    assert !Resolves(store, y.refs[0]);
    LeafIsSound(x, store);
    DanglingIsUnsound(y, store);
    assert !EntriesAgree(store);
    DecidesAllIff(store);
  }

  lemma LeafIsSound(b: Bundle, store: Store)
    requires b.bundleId.Some? && b.refs == []
    ensures Sound(b, store)
  {
    forall p | IsPath(b, store, p) ensures Fine(b, store, p) {
      assert p != [] ==> Leads(At(b, store, p, 0), store, p[0]);
    }
  }

  lemma DanglingIsUnsound(b: Bundle, store: Store)
    requires !AllResolve(store, b.refs)
    ensures !Sound(b, store)
  {
    var none: seq<string> := [];
    assert IsPath(b, store, none) && !Fine(b, store, none);
  }

  // ---------------------------------------------------------------- diamonds

  /** A diamond is a valid lineage that Go refuses: the shared grandparent occurs twice in the unfolding. */
  lemma GoRefusesDiamonds()
    ensures exists root, bundles, digest: PY.ContentDigest ::
      PY.Comparable(root, bundles, digest, "A") && ValidLineage(root, IndexById(bundles))
          && GO.Answer(root, bundles, digest, 100) != None
  {
    var r, a, b, d := Node("r", ["a", "b"]), Node("a", ["d"]), Node("b", ["d"]), Node("d", []);
    var bundles := [d, a, b];
    var digest: PY.ContentDigest := (alg: string, x: Bundle) => Some("d");
    assert "r" != "a" && "r" != "b" && "r" != "d" && "a" != "b" && "a" != "d" && "b" != "d";
    assert PY.Comparable(r, bundles, digest, "A");
    var store := IndexById(bundles);
    DiamondIndex(a, b, d);
    DiamondIsValid(("r", "a", "b", "d"), r, a, b, d, store);
    DiamondUnfolds(r, a, b, d, store, digest);
    GO.AcceptsIffUnfoldsOnce(r, bundles, digest, 100);
  }

  lemma DiamondUnfolds(r: Bundle, a: Bundle, b: Bundle, d: Bundle, store: Store, digest: PY.ContentDigest)
    requires Diamond(("r", "a", "b", "d"), r, a, b, d, store) && forall x :: digest("A", x) == Some("d")
    ensures GO.Unfold(r.refs, store, digest, 0, 100) == Some(["a", "d", "b", "d"])
    ensures !NoRepeats(["a", "d", "b", "d"])
  {
    UnfoldOne(a, d, store, digest, 1);
    UnfoldOne(b, d, store, digest, 1);
    var rest := r.refs[1..];
    assert rest[0] == ParentRef("b", "d", "A") && rest[1..] == [];
    assert GO.Matches(store, digest, rest[0]);
    assert ["b"] + ["d"] + [] == ["b", "d"];
    assert GO.Unfold(rest, store, digest, 0, 100) == Some(["b", "d"]);
    assert r.refs[0] == ParentRef("a", "d", "A");
    assert GO.Matches(store, digest, r.refs[0]);
    var u := ["a", "d", "b", "d"];
    assert ["a"] + ["d"] + ["b", "d"] == u;
    assert u[1] == u[3];
  }

  lemma DiamondIndex(a: Bundle, b: Bundle, d: Bundle)
    requires IdOf(a) == "a" && IdOf(b) == "b" && IdOf(d) == "d"
    ensures IndexById([d, a, b]) == map["d" := d, "a" := a, "b" := b]
  {
    assert [d][..0] == [] && [d, a][..1] == [d] && [d, a, b][..2] == [d, a];
    assert IndexById([d]) == map["d" := d];
    assert IndexById([d, a]) == map["d" := d, "a" := a];
  }

  /** The unfolding of a bundle whose only parent has no parents. */
  lemma UnfoldOne(child: Bundle, parent: Bundle, store: Store, digest: PY.ContentDigest, depth: nat)
    requires depth < 100 && child.refs == [ParentRef("d", "d", "A")] && "d" in store && store["d"] == parent
             && parent.refs == []
    requires digest("A", parent) == Some("d")
    ensures GO.Unfold(child.refs, store, digest, depth, 100) == Some(["d"])
  {
    assert GO.Matches(store, digest, child.refs[0]);
    var none: seq<string> := [];
    assert ["d"] + none + none == ["d"];
  }

  /** Four bundles in the shape of a diamond, under different names. */
  ghost predicate Diamond(names: (string, string, string, string), r: Bundle, a: Bundle, b: Bundle, d: Bundle,
                          store: Store) {
    var (nr, na, nb, nd) := names;
    && nr != na && nr != nb && nr != nd && na != nb && na != nd && nb != nd
    && r == Node(nr, [na, nb]) && a == Node(na, [nd]) && b == Node(nb, [nd]) && d == Node(nd, [])
    && store == map[nd := d, na := a, nb := b]
  }

  lemma DiamondIsValid(names: (string, string, string, string), r: Bundle, a: Bundle, b: Bundle, d: Bundle,
                       store: Store)
    requires Diamond(names, r, a, b, d, store)
    ensures ValidLineage(r, store)
  {
    DiamondReached(names, r, a, b, d, store);
    DiamondClaims(names, r, a, b, d, store);
    DiamondRefs(names, r, a, b, d, store);
    LeafIsSound(d, store);
    SoundOver(r, store, a, d, d);
    SoundOver(r, store, b, d, d);
    SoundOver(r, store, r, a, b);
    SoundIffValid(r, store);
  }

  lemma DiamondRefs(names: (string, string, string, string), r: Bundle, a: Bundle, b: Bundle, d: Bundle, store: Store)
    requires Diamond(names, r, a, b, d, store)
    ensures d.refs == [] && d.bundleId.Some? && Cited(store, a, d, d) && Cited(store, b, d, d) && Cited(store, r, a, b)
  {
  }

  /** All references of the bundle resolve to one of two others. */
  ghost predicate Cited(store: Store, b: Bundle, p: Bundle, q: Bundle) {
    && b.bundleId.Some? && AllResolve(store, b.refs)
    && forall j :: 0 <= j < |b.refs| ==> store[b.refs[j].parentId] == p || store[b.refs[j].parentId] == q
  }

  lemma SoundOver(root: Bundle, store: Store, b: Bundle, p: Bundle, q: Bundle)
    requires Reached(root, store, b) && Agreeing(root, store) && Cited(store, b, p, q) && Sound(p, store)
             && Sound(q, store)
    ensures Sound(b, store)
  {
    SoundAbove(root, store, b);
  }

  lemma DiamondClaims(names: (string, string, string, string), r: Bundle, a: Bundle, b: Bundle, d: Bundle, store: Store)
    requires Diamond(names, r, a, b, d, store)
    ensures Keyed(store) && Agreeing(r, store)
  {
    DistinctClaimsAgree(r, store);
  }

  lemma DiamondReached(names: (string, string, string, string), r: Bundle, a: Bundle, b: Bundle, d: Bundle,
                       store: Store)
    requires Diamond(names, r, a, b, d, store)
    ensures Reached(r, store, r) && Reached(r, store, a) && Reached(r, store, b) && Reached(r, store, d)
  {
    var (nr, na, nb, nd) := names;
    assert r.refs[0].parentId == na && r.refs[1].parentId == nb && a.refs[0].parentId == nd;
    assert Leads(r, store, na) && Leads(r, store, nb) && Leads(a, store, nd);
    var none: seq<string> := [];
    assert IsPath(r, store, none) && End(r, store, none) == r;
    OneStep(r, store, na);
    OneStep(r, store, nb);
    OneStep(a, store, nd);
    ReachedNext(r, store, a, [nd]);
  }

  // ---------------------------------------------------------------- another bundle of the root's id

  /** The answers of the three walks on one input. */
  ghost predicate OnlyTypeScriptRefuses(root: Bundle, bundles: seq<Bundle>, digest: PY.ContentDigest) {
    && PY.ParentMapOf(bundles, digest, "A").Some?
    && PY.Check(root, PY.ParentMapOf(bundles, digest, "A").value, digest, 100, {}, 100) == PY.Valid
    && GO.Answer(root, bundles, digest, 100) == None
    && TS.Answer(root, IndexById(bundles), 100) == TS.LineageInvalid
  }

  /**
    The root cites a supplied bundle that claims the root's own id and has no references. Python returns before
    its cycle test, Go never enters the root in its visited set, and TypeScript is still visiting the id.
   */
  lemma RootIdReclaimed()
    ensures exists root, bundles, digest: PY.ContentDigest ::
      PY.Comparable(root, bundles, digest, "A") && OnlyTypeScriptRefuses(root, bundles, digest)
  {
    var root, leaf := Node("r", ["r"]), Node("r", []);
    var bundles := [leaf];
    var digest: PY.ContentDigest := (alg: string, x: Bundle) => Some("d");
    assert PY.Comparable(root, bundles, digest, "A");
    assert bundles[..|bundles| - 1] == [];
    assert PY.ParentMapOf(bundles, digest, "A") == Some(map[("r", "d") := leaf]);
    var store, parents := IndexById(bundles), map[("r", "d") := leaf];
    var none: Store := map[];
    assert IdOf(leaf) == "r" && bundles[|bundles| - 1] == leaf;
    assert IndexById(bundles[..|bundles| - 1]) == none;
    assert store == none["r" := leaf];
    assert root.refs[0] == ParentRef("r", "d", "A") && root.refs[1..] == [];
    assert PY.Check(leaf, parents, digest, 100, {"r"}, 99) == PY.Valid;
    assert {} + {"r"} == {"r"};
    assert GO.Chase(root.refs[0], store, digest, {}, 0, 100) == GO.Accepted({"r"});
    assert TS.WalkNode(store, 100, leaf, 1, {"r"}, {}).outcome == TS.LineageInvalid;
    assert OnlyTypeScriptRefuses(root, bundles, digest);
  }
}
