/**
  Bundles, parent references and the graph they form: what "lineage is valid" means,
  independently of how any implementation walks it.
 */
module LineageGraph {
  import opened Utf8

  datatype ParentRef = ParentRef(parentId: string, parentDigest: string, digestAlg: string)

  /**
    The part of a bundle that lineage looks at. `bundleId` and `sealDigest` are absent when the
    field is missing or not a string; `content` stands for the remaining sealed content.
   */
  datatype Bundle = Bundle(bundleId: Option<string>, refs: seq<ParentRef>, sealDigest: Option<string>,
                           metaAlg: string, sealAlg: string, content: string)

  /** The bundles supplied by the caller, by bundle id. */
  type Store = map<string, Bundle>

  ghost predicate Keyed(store: Store) {
    forall k :: k in store ==> store[k].bundleId == Some(k)
  }

  /** An absent id reads as the empty string in the Go and Python implementations. */
  function IdOf(b: Bundle): string {
    if b.bundleId.Some? then b.bundleId.value else ""
  }

  /** The lookup table by id over a list of bundles; a later bundle replaces an earlier one of the same id. */
  function IndexById(bundles: seq<Bundle>): Store {
    if bundles == [] then map[]
    else IndexById(bundles[..|bundles| - 1])[IdOf(bundles[|bundles| - 1]) := bundles[|bundles| - 1]]
  }

  /** Every bundle of the list has an id of its own. */
  ghost predicate DistinctIds(bundles: seq<Bundle>) {
    && (forall i :: 0 <= i < |bundles| ==> bundles[i].bundleId.Some? && bundles[i].bundleId.value != "")
    && (forall i, j {:trigger bundles[i], bundles[j]} :: 0 <= i < j < |bundles| ==>
          bundles[i].bundleId != bundles[j].bundleId)
  }

  /** Indexing a list with distinct ids loses nothing. */
  lemma {:induction false} IndexByIdExact(bundles: seq<Bundle>)
    requires DistinctIds(bundles)
    ensures Keyed(IndexById(bundles)) && "" !in IndexById(bundles)
    ensures IndexById(bundles).Values == set b | b in bundles
    ensures forall k :: k in IndexById(bundles) <==> exists i :: 0 <= i < |bundles| && bundles[i].bundleId == Some(k)
  {
    if bundles != [] {
      var n := |bundles| - 1;
      var before, last := bundles[..n], bundles[n];
      assert bundles == before + [last];
      IndexByIdExact(before);
      var store, store' := IndexById(before), IndexById(bundles);
      assert IdOf(last) !in store;
      assert store' == store[IdOf(last) := last];
      forall b ensures b in store'.Values <==> b in bundles {
        if b in store.Values {
          var k :| k in store && store[k] == b;
          assert store'[k] == b;
        }
        assert store'[IdOf(last)] == last;
      }
    }
  }

  /** Bundle number `i` is the last one of the id; a bundle without an id counts as one of the id "". */
  ghost predicate LastWithId(bundles: seq<Bundle>, k: string, i: int) {
    && 0 <= i < |bundles| && ClaimsOrEmpty(bundles[i], k)
    && forall j :: i < j < |bundles| ==> !ClaimsOrEmpty(bundles[j], k)
  }

  predicate ClaimsOrEmpty(b: Bundle, k: string) {
    b.bundleId == Some(k) || (b.bundleId == None && k == "")
  }

  /** The table answers the last bundle of an id, for every list. */
  lemma {:induction false} IndexByIdIs(bundles: seq<Bundle>, k: string)
    ensures k in IndexById(bundles) <==> exists i :: LastWithId(bundles, k, i)
    ensures forall i :: LastWithId(bundles, k, i) ==> k in IndexById(bundles) && IndexById(bundles)[k] == bundles[i]
  {
    if bundles != [] {
      var n := |bundles| - 1;
      var before, last := bundles[..n], bundles[n];
      assert bundles == before + [last];
      IndexByIdIs(before, k);
      assert IdOf(last) == k <==> ClaimsOrEmpty(last, k);
      LastOfLonger(before, last, k);
      assert ClaimsOrEmpty(last, k) ==> LastWithId(bundles, k, n);
      if i :| LastWithId(before, k, i) {
        assert !ClaimsOrEmpty(last, k) ==> LastWithId(bundles, k, i);
      }
    }
  }

  lemma LastOfLonger(before: seq<Bundle>, last: Bundle, k: string)
    ensures forall i :: LastWithId(before + [last], k, i)
                        <==> if ClaimsOrEmpty(last, k) then i == |before| else LastWithId(before, k, i)
  {
    var n, bundles := |before|, before + [last];
    assert bundles[n] == last && bundles[..n] == before;
    forall i ensures LastWithId(bundles, k, i)
                     <==> if ClaimsOrEmpty(last, k) then i == n else LastWithId(before, k, i)
    {
      assert forall j :: 0 <= j < n ==> bundles[j] == before[j];
      if LastWithId(bundles, k, i) && i < n {
        assert !ClaimsOrEmpty(bundles[n], k);
        forall j | i < j < n ensures !ClaimsOrEmpty(before[j], k) {
          assert before[j] == bundles[j];
        }
      }
    }
  }

  predicate Resolves(store: Store, r: ParentRef) {
    r.parentId in store && store[r.parentId].sealDigest == Some(r.parentDigest)
  }

  ghost predicate AllResolve(store: Store, refs: seq<ParentRef>) {
    forall i :: 0 <= i < |refs| ==> Resolves(store, refs[i])
  }

  predicate Known(root: Bundle, store: Store, id: string) {
    root.bundleId == Some(id) || id in store
  }

  /** The bundle behind an id; the root stands for itself even when the store has an entry of that id. */
  function NodeOf(root: Bundle, store: Store, id: string): Bundle
    requires Known(root, store, id)
  {
    if root.bundleId == Some(id) then root else store[id]
  }

  ghost predicate Cites(b: Bundle, id: string) {
    exists i :: 0 <= i < |b.refs| && b.refs[i].parentId == id
  }

  /** Each bundle on the walk cites the next one. */
  ghost predicate IsWalk(root: Bundle, store: Store, p: seq<string>) {
    && p != []
    && (forall i :: 0 <= i < |p| ==> Known(root, store, p[i]))
    && (forall i :: 0 <= i < |p| - 1 ==> Cites(NodeOf(root, store, p[i]), p[i + 1]))
  }

  ghost predicate FromRoot(root: Bundle, store: Store, p: seq<string>) {
    IsWalk(root, store, p) && root.bundleId == Some(p[0])
  }

  predicate NoRepeats(p: seq<string>) {
    forall i, j :: 0 <= i < j < |p| ==> p[i] != p[j]
  }

  function Last(p: seq<string>): string
    requires p != []
  {
    p[|p| - 1]
  }

  /** Every reference of every reachable bundle resolves to a parent with the cited digest. */
  ghost predicate Resolvable(root: Bundle, store: Store) {
    forall p :: FromRoot(root, store, p) ==> AllResolve(store, NodeOf(root, store, Last(p)).refs)
  }

  /** No walk from the root meets an id twice. */
  ghost predicate Acyclic(root: Bundle, store: Store) {
    forall p :: FromRoot(root, store, p) ==> NoRepeats(p)
  }

  ghost predicate ValidLineage(root: Bundle, store: Store) {
    root.bundleId.Some? && Resolvable(root, store) && Acyclic(root, store)
  }

  /** The distinct ids of the graph. */
  function Ids(root: Bundle, store: Store): set<string> {
    store.Keys + (if root.bundleId.Some? then {root.bundleId.value} else {})
  }

  function Elements(p: seq<string>): set<string> {
    set x | x in p
  }

  lemma {:induction false} DistinctCount(p: seq<string>, ids: set<string>)
    requires NoRepeats(p) && Elements(p) <= ids
    ensures |p| <= |ids| && |Elements(p)| == |p|
  {
    if p != [] {
      var h, t := Last(p), p[..|p| - 1];
      assert p == t + [h];
      assert h !in t;
      assert forall x :: x in t ==> x in p;
      DistinctCount(t, ids - {h});
      assert Elements(p) == Elements(t) + {h};
      assert ids == (ids - {h}) + {h} by { assert h in Elements(p); }
    }
  }

  /** A walk without repeats has at most as many steps as there are ids. */
  lemma SimpleWalkLength(root: Bundle, store: Store, p: seq<string>)
    requires IsWalk(root, store, p) && NoRepeats(p)
    ensures |p| <= |Ids(root, store)|
  {
    forall x | x in Elements(p) ensures x in Ids(root, store) {
      var i :| 0 <= i < |p| && p[i] == x;
      assert Known(root, store, p[i]);
    }
    DistinctCount(p, Ids(root, store));
  }

  lemma WalkPrefix(root: Bundle, store: Store, p: seq<string>, n: nat)
    requires IsWalk(root, store, p) && 1 <= n <= |p|
    ensures IsWalk(root, store, p[..n])
  {
  }

  // ---------------------------------------------------------------- key paths

  /*
    A walk follows ids, which is what a reader of the references sees. An implementation follows
    keys: it looks a parent up under a key, and the bundle it finds may claim any id. Paths of keys
    make sense for every store; where bundles are stored under their own ids they are the walks.
   */

  /** The bundle at position `i` of the path `p`; position 0 is the bundle the path starts from. */
  function At(b: Bundle, store: Store, p: seq<string>, i: nat): Bundle
    requires i <= |p| && (i > 0 ==> p[i - 1] in store)
  {
    if i == 0 then b else store[p[i - 1]]
  }

  /** Some reference of the bundle resolves to the one stored under the key. */
  ghost predicate Leads(b: Bundle, store: Store, k: string) {
    exists j :: 0 <= j < |b.refs| && b.refs[j].parentId == k && Resolves(store, b.refs[j])
  }

  predicate Keys(store: Store, p: seq<string>) {
    forall i :: 0 <= i < |p| ==> p[i] in store
  }

  ghost predicate IsPath(b: Bundle, store: Store, p: seq<string>) {
    && Keys(store, p)
    && (forall i {:trigger Leads(At(b, store, p, i), store, p[i])} ::
          0 <= i < |p| ==> Leads(At(b, store, p, i), store, p[i]))
  }

  function End(b: Bundle, store: Store, p: seq<string>): Bundle
    requires p != [] ==> Last(p) in store
  {
    At(b, store, p, |p|)
  }

  ghost predicate Reached(b: Bundle, store: Store, c: Bundle) {
    exists p :: IsPath(b, store, p) && End(b, store, p) == c
  }

  /** The first `n` bundles of the path claim ids, and all different ones. */
  ghost predicate Apart(b: Bundle, store: Store, p: seq<string>, n: nat)
    requires Keys(store, p) && n <= |p| + 1
  {
    && (forall i :: 0 <= i < n ==> At(b, store, p, i).bundleId.Some?)
    && (forall i, j :: 0 <= i < j < n ==> At(b, store, p, i).bundleId != At(b, store, p, j).bundleId)
  }

  ghost predicate Fine(b: Bundle, store: Store, p: seq<string>)
    requires IsPath(b, store, p)
  {
    Apart(b, store, p, |p| + 1) && AllResolve(store, End(b, store, p).refs)
  }

  /** Everything reachable resolves, claims an id, and no path meets a claimed id twice. */
  ghost predicate Sound(b: Bundle, store: Store) {
    forall p {:trigger Fine(b, store, p)} :: IsPath(b, store, p) ==> Fine(b, store, p)
  }

  lemma PathPrefix(b: Bundle, store: Store, p: seq<string>, n: nat)
    requires IsPath(b, store, p) && n <= |p|
    ensures IsPath(b, store, p[..n])
    ensures forall i :: 0 <= i <= n ==> At(b, store, p[..n], i) == At(b, store, p, i)
  {
    var q := p[..n];
    forall i | 0 <= i < n ensures Leads(At(b, store, q, i), store, q[i]) {
      assert q[i] == p[i] && At(b, store, q, i) == At(b, store, p, i);
    }
  }

  lemma SuffixAt(b: Bundle, store: Store, p: seq<string>, n: nat)
    requires Keys(store, p) && n <= |p|
    ensures Keys(store, p[n..])
    ensures forall i :: 0 <= i <= |p| - n ==> At(At(b, store, p, n), store, p[n..], i) == At(b, store, p, n + i)
  {
  }

  lemma PathSuffix(b: Bundle, store: Store, p: seq<string>, n: nat)
    requires IsPath(b, store, p) && n <= |p|
    ensures IsPath(At(b, store, p, n), store, p[n..])
    ensures forall i :: 0 <= i <= |p| - n ==> At(At(b, store, p, n), store, p[n..], i) == At(b, store, p, n + i)
  {
    var c, q := At(b, store, p, n), p[n..];
    SuffixAt(b, store, p, n);
    forall i | 0 <= i < |q| ensures Leads(At(c, store, q, i), store, q[i]) {
      assert q[i] == p[n + i];
      assert Leads(At(b, store, p, n + i), store, p[n + i]);
    }
  }

  /** The positions of a path put together from two. */
  lemma ConcatAt(b: Bundle, store: Store, p: seq<string>, q: seq<string>)
    requires Keys(store, p) && Keys(store, q)
    ensures Keys(store, p + q)
    ensures forall i :: 0 <= i <= |p| ==> At(b, store, p + q, i) == At(b, store, p, i)
    ensures forall i :: 0 <= i <= |q| ==> At(b, store, p + q, |p| + i) == At(End(b, store, p), store, q, i)
  {
  }

  lemma PathConcat(b: Bundle, store: Store, p: seq<string>, q: seq<string>)
    requires IsPath(b, store, p) && IsPath(End(b, store, p), store, q)
    ensures IsPath(b, store, p + q)
    ensures End(b, store, p + q) == End(End(b, store, p), store, q)
    ensures forall i :: 0 <= i <= |p| ==> At(b, store, p + q, i) == At(b, store, p, i)
  {
    var r, c := p + q, End(b, store, p);
    ConcatAt(b, store, p, q);
    assert |r| == |p| + |q|;
    forall i | 0 <= i < |r| ensures Leads(At(b, store, r, i), store, r[i]) {
      if i < |p| {
        assert Leads(At(b, store, p, i), store, p[i]);
      } else {
        assert Leads(At(c, store, q, i - |p|), store, q[i - |p|]);
        assert At(b, store, r, |p| + (i - |p|)) == At(c, store, q, i - |p|);
      }
    }
  }

  lemma ExtendPath(b: Bundle, store: Store, p: seq<string>, k: string)
    requires IsPath(b, store, p) && Leads(End(b, store, p), store, k)
    ensures IsPath(b, store, p + [k]) && End(b, store, p + [k]) == store[k]
    ensures forall i :: 0 <= i <= |p| ==> At(b, store, p + [k], i) == At(b, store, p, i)
  {
    OneStep(End(b, store, p), store, k);
    PathConcat(b, store, p, [k]);
  }

  lemma OneStep(b: Bundle, store: Store, k: string)
    requires Leads(b, store, k)
    ensures IsPath(b, store, [k]) && End(b, store, [k]) == store[k]
  {
    assert At(b, store, [k], 0) == b;
  }

  /** What a sound bundle reaches is sound. */
  lemma SoundReaches(b: Bundle, store: Store, p: seq<string>)
    requires Sound(b, store) && IsPath(b, store, p)
    ensures Sound(End(b, store, p), store)
  {
    var c := End(b, store, p);
    forall q | IsPath(c, store, q) ensures Fine(c, store, q) {
      PathConcat(b, store, p, q);
      assert Fine(b, store, p + q);
      FineSuffix(b, store, p, q);
    }
  }

  lemma FineSuffix(b: Bundle, store: Store, p: seq<string>, q: seq<string>)
    requires IsPath(b, store, p) && IsPath(End(b, store, p), store, q)
    requires IsPath(b, store, p + q) && Fine(b, store, p + q)
    ensures Fine(End(b, store, p), store, q)
  {
    ConcatAt(b, store, p, q);
    ApartSuffix(b, store, p, q);
  }

  lemma ApartSuffix(b: Bundle, store: Store, p: seq<string>, q: seq<string>)
    requires Keys(store, p) && Keys(store, q) && Keys(store, p + q) && Apart(b, store, p + q, |p| + |q| + 1)
    ensures Apart(End(b, store, p), store, q, |q| + 1)
  {
    var c, r := End(b, store, p), p + q;
    ConcatAt(b, store, p, q);
    forall i | 0 <= i <= |q| ensures At(c, store, q, i).bundleId.Some? {
      assert At(b, store, r, |p| + i).bundleId.Some?;
    }
    forall i, j | 0 <= i < j <= |q| ensures At(c, store, q, i).bundleId != At(c, store, q, j).bundleId {
      assert At(b, store, r, |p| + i).bundleId != At(b, store, r, |p| + j).bundleId;
    }
  }

  // ---------------------------------------------------------------- paths and walks

  /** On a sound lineage every walk is a path. */
  lemma {:induction false} SoundWalk(root: Bundle, store: Store, q: seq<string>)
    requires Keyed(store) && Sound(root, store) && FromRoot(root, store, q)
    ensures IsPath(root, store, q[1..]) && NoRepeats(q)
    ensures End(root, store, q[1..]) == NodeOf(root, store, Last(q))
    decreases |q|
  {
    var n := |q| - 1;
    if n > 0 {
      WalkPrefix(root, store, q, n);
      SoundWalk(root, store, q[..n]);
      var p := q[1..n];
      assert q[..n][1..] == p;
      var here := End(root, store, p);
      assert Fine(root, store, p);
      assert Cites(NodeOf(root, store, q[n - 1]), q[n]) && Last(q[..n]) == q[n - 1];
      var j :| 0 <= j < |here.refs| && here.refs[j].parentId == q[n];
      assert Resolves(store, here.refs[j]);
      ExtendPath(root, store, p, q[n]);
      assert p + [q[n]] == q[1..];
      assert Fine(root, store, q[1..]);
      WalkIds(root, store, q);
    } else {
      assert q[1..] == [];
    }
  }

  lemma WalkIds(root: Bundle, store: Store, q: seq<string>)
    requires Keyed(store) && q != [] && root.bundleId == Some(q[0]) && Keys(store, q[1..])
    ensures forall i :: 0 <= i < |q| ==> At(root, store, q[1..], i).bundleId == Some(q[i])
    ensures forall n :: 0 <= n <= |q| ==> (Apart(root, store, q[1..], n) <==> NoRepeats(q[..n]))
  {
    var p := q[1..];
    forall i | 0 <= i < |q| ensures At(root, store, p, i).bundleId == Some(q[i]) {
      assert i > 0 ==> p[i - 1] == q[i];
    }
    forall n | 0 <= n <= |q| ensures Apart(root, store, p, n) <==> NoRepeats(q[..n]) {
      if Apart(root, store, p, n) {
        forall i, j | 0 <= i < j < n ensures q[i] != q[j] {
          assert At(root, store, p, i).bundleId != At(root, store, p, j).bundleId;
        }
      }
      if NoRepeats(q[..n]) {
        forall i, j | 0 <= i < j < n ensures At(root, store, p, i).bundleId != At(root, store, p, j).bundleId {
          assert q[..n][i] != q[..n][j];
        }
      }
    }
  }

  /** A path whose bundles before the last claim different ids is a walk. */
  lemma {:induction false} PathIsWalk(root: Bundle, store: Store, p: seq<string>)
    requires Keyed(store) && root.bundleId.Some? && IsPath(root, store, p) && Apart(root, store, p, |p|)
    ensures FromRoot(root, store, [root.bundleId.value] + p)
    ensures Apart(root, store, p, |p| + 1)
            ==> End(root, store, p) == NodeOf(root, store, Last([root.bundleId.value] + p))
  {
    var q := [root.bundleId.value] + p;
    assert q[1..] == p;
    WalkIds(root, store, q);
    forall i | 0 <= i < |p|
      ensures At(root, store, p, i) == NodeOf(root, store, q[i]) && Cites(NodeOf(root, store, q[i]), q[i + 1]) {
      assert q[i + 1] == p[i] && Leads(At(root, store, p, i), store, p[i]);
      assert i > 0 ==> At(root, store, p, 0).bundleId != At(root, store, p, i).bundleId;
    }
    if Apart(root, store, p, |p| + 1) && p != [] {
      assert At(root, store, p, 0).bundleId != At(root, store, p, |p|).bundleId;
    }
  }

  /** On a valid lineage every path is a walk, and fine. */
  lemma {:induction false} ValidPath(root: Bundle, store: Store, p: seq<string>)
    requires Keyed(store) && ValidLineage(root, store) && IsPath(root, store, p)
    ensures FromRoot(root, store, [root.bundleId.value] + p) && Fine(root, store, p)
    decreases |p|
  {
    if p != [] {
      PathPrefix(root, store, p, |p| - 1);
      ValidPath(root, store, p[..|p| - 1]);
      ApartPrefix(root, store, p, |p| - 1);
    }
    ValidEnd(root, store, p);
  }

  lemma ValidEnd(root: Bundle, store: Store, p: seq<string>)
    requires Keyed(store) && ValidLineage(root, store) && IsPath(root, store, p) && Apart(root, store, p, |p|)
    ensures FromRoot(root, store, [root.bundleId.value] + p) && Fine(root, store, p)
  {
    var q := [root.bundleId.value] + p;
    PathIsWalk(root, store, p);
    assert NoRepeats(q);
    assert q[1..] == p && q[..|q|] == q;
    WalkIds(root, store, q);
    assert Apart(root, store, p, |p| + 1);
    assert AllResolve(store, NodeOf(root, store, Last(q)).refs);
  }

  lemma ApartPrefix(b: Bundle, store: Store, p: seq<string>, n: nat)
    requires IsPath(b, store, p) && n <= |p| && IsPath(b, store, p[..n]) && Apart(b, store, p[..n], n + 1)
    ensures Apart(b, store, p, n + 1)
  {
    var q := p[..n];
    PathPrefix(b, store, p, n);
    forall i | 0 <= i <= n ensures At(b, store, p, i).bundleId.Some? {
      assert At(b, store, q, i).bundleId.Some?;
    }
    forall i, j | 0 <= i < j <= n ensures At(b, store, p, i).bundleId != At(b, store, p, j).bundleId {
      assert At(b, store, q, i).bundleId != At(b, store, q, j).bundleId;
    }
  }

  /** Where bundles are stored under their own ids, soundness along keys is validity of the lineage. */
  lemma SoundIffValid(root: Bundle, store: Store)
    requires Keyed(store)
    ensures Sound(root, store) <==> ValidLineage(root, store)
  {
    if Sound(root, store) {
      var start: seq<string> := [];
      assert IsPath(root, store, start) && Fine(root, store, start);
      assert At(root, store, start, 0).bundleId.Some?;
      forall q | FromRoot(root, store, q) ensures NoRepeats(q) && AllResolve(store, NodeOf(root, store, Last(q)).refs) {
        SoundWalk(root, store, q);
        assert Fine(root, store, q[1..]);
      }
    }
    if ValidLineage(root, store) {
      forall p | IsPath(root, store, p) ensures Fine(root, store, p) {
        ValidPath(root, store, p);
      }
    }
  }

  // ---------------------------------------------------------------- claimed ids

  /** The ids that some of the bundles claim. */
  function Claimed(bs: seq<Bundle>): set<string> {
    set b | b in bs && b.bundleId.Some? :: b.bundleId.value
  }

  function ClaimedIds(root: Bundle, store: Store): set<string> {
    Claimed([root]) + set k | k in store && store[k].bundleId.Some? :: store[k].bundleId.value
  }

  /** The ids claimed by the first `n` bundles of a path. */
  ghost function PathIds(b: Bundle, store: Store, p: seq<string>, n: nat): set<string>
    requires Keys(store, p) && n <= |p| + 1
  {
    set i | 0 <= i < n && At(b, store, p, i).bundleId.Some? :: At(b, store, p, i).bundleId.value
  }

  /** Of the bundles of a path, those at the first `n` positions claim at most as many ids as there are. */
  lemma PathCount(b: Bundle, store: Store, p: seq<string>, n: nat)
    requires Keys(store, p) && n <= |p| + 1 && Apart(b, store, p, n)
    ensures n <= |ClaimedIds(b, store)| && |PathIds(b, store, p, n)| == n
  {
    var ids := seq(n, i requires 0 <= i < n => At(b, store, p, i).bundleId.value);
    forall i, j | 0 <= i < j < |ids| ensures ids[i] != ids[j] {
      assert At(b, store, p, i).bundleId != At(b, store, p, j).bundleId;
    }
    forall x | x in Elements(ids) ensures x in ClaimedIds(b, store) {
      var i :| 0 <= i < n && ids[i] == x;
      if i == 0 {
        assert b in [b];
      } else {
        assert p[i - 1] in store;
      }
    }
    DistinctCount(ids, ClaimedIds(b, store));
    forall x ensures x in Elements(ids) <==> x in PathIds(b, store, p, n) {
      if x in PathIds(b, store, p, n) {
        var i :| 0 <= i < n && At(b, store, p, i).bundleId == Some(x);
        assert ids[i] == x;
      }
    }
    assert Elements(ids) == PathIds(b, store, p, n);
  }

  /** A path whose bundles before the last claim different ids has at most as many levels as there are ids. */
  lemma PathLength(b: Bundle, store: Store, p: seq<string>)
    requires Keys(store, p) && Apart(b, store, p, |p|)
    ensures |p| <= |ClaimedIds(b, store)|
  {
    PathCount(b, store, p, |p|);
  }

  /** The end of the path adds its id to those before it; an id that is there already shows a cycle. */
  lemma OneMore(root: Bundle, store: Store, p: seq<string>)
    requires Keys(store, p) && Apart(root, store, p, |p|) && End(root, store, p).bundleId.Some?
    ensures var id := End(root, store, p).bundleId.value;
            && PathIds(root, store, p, |p| + 1) == PathIds(root, store, p, |p|) + {id}
            && (Apart(root, store, p, |p| + 1) <==> id !in PathIds(root, store, p, |p|))
  {
    var id := End(root, store, p).bundleId.value;
    assert At(root, store, p, |p|).bundleId == Some(id);
    if id in PathIds(root, store, p, |p|) {
      var i :| 0 <= i < |p| && At(root, store, p, i).bundleId == Some(id);
      assert At(root, store, p, i).bundleId == At(root, store, p, |p|).bundleId;
    } else {
      forall i | 0 <= i < |p| ensures At(root, store, p, i).bundleId != Some(id) {
        assert At(root, store, p, i).bundleId.Some?;
      }
    }
    forall x ensures x in PathIds(root, store, p, |p| + 1) <==> x in PathIds(root, store, p, |p|) || x == id {
      if x in PathIds(root, store, p, |p| + 1) {
        var i :| 0 <= i < |p| + 1 && At(root, store, p, i).bundleId == Some(x);
      }
    }
  }

  lemma SameIds(root: Bundle, store: Store, p: seq<string>, k: string)
    requires Keys(store, p) && k in store && Keys(store, p + [k])
    ensures PathIds(root, store, p + [k], |p| + 1) == PathIds(root, store, p, |p| + 1)
    ensures Apart(root, store, p + [k], |p| + 1) <==> Apart(root, store, p, |p| + 1)
  {
    var q := p + [k];
    forall i | 0 <= i <= |p| ensures At(root, store, q, i) == At(root, store, p, i) {
    }
    if Apart(root, store, q, |p| + 1) {
      forall i, j | 0 <= i < j <= |p| ensures At(root, store, p, i).bundleId != At(root, store, p, j).bundleId {
        assert At(root, store, q, i).bundleId != At(root, store, q, j).bundleId;
      }
    }
    if Apart(root, store, p, |p| + 1) {
      forall i, j | 0 <= i < j <= |p| ensures At(root, store, q, i).bundleId != At(root, store, q, j).bundleId {
        assert At(root, store, p, i).bundleId != At(root, store, p, j).bundleId;
      }
    }
  }

  lemma KeyedClaims(root: Bundle, store: Store)
    requires Keyed(store)
    ensures ClaimedIds(root, store) == Ids(root, store)
  {
    assert root in [root];
  }

  /** Entries that claim one id are one bundle, whatever keys they are stored under. */
  ghost predicate DistinctClaims(store: Store) {
    forall j, k ::
      j in store && k in store && store[j].bundleId.Some? && store[j].bundleId == store[k].bundleId ==>
        store[j] == store[k]
  }

  /** Of any two reachable bundles that claim one id, both are sound or neither is. */
  ghost predicate Agreeing(root: Bundle, store: Store) {
    forall b, c ::
      Reached(root, store, b) && Reached(root, store, c) && b.bundleId.Some? && b.bundleId == c.bundleId ==>
        (Sound(b, store) <==> Sound(c, store))
  }

  lemma DistinctClaimsAgree(root: Bundle, store: Store)
    requires DistinctClaims(store)
    requires forall k :: k in store && store[k].bundleId == root.bundleId ==> store[k] == root
    ensures Agreeing(root, store)
  {
    forall b | Reached(root, store, b) ensures b == root || exists k :: k in store && store[k] == b {
      var p :| IsPath(root, store, p) && End(root, store, p) == b;
      if p != [] {
        assert Last(p) in store && store[Last(p)] == b;
      }
    }
  }

  // ---------------------------------------------------------------- cycles through the root

  /*
    The root is not looked up, so a supplied bundle that claims its id is another bundle as a rule.
    Whether a lineage comes back to the root's id is therefore a question of its own.
   */

  /** All references resolve, and no path goes through a key twice. */
  ghost predicate Tidy(root: Bundle, store: Store) {
    forall p :: IsPath(root, store, p) ==> NoRepeats(p) && AllResolve(store, End(root, store, p).refs)
  }

  /** Some bundle above the root claims the root's id. */
  ghost predicate ReachesItself(root: Bundle, store: Store) {
    exists p :: IsPath(root, store, p) && p != [] && End(root, store, p).bundleId == root.bundleId
  }

  lemma NoRepeatsFrom(x: string, p: seq<string>, n: nat)
    requires NoRepeats(p) && 1 <= n <= |p| + 1
    ensures NoRepeats(([x] + p)[..n]) <==> x !in p[..n - 1]
  {
    var q := [x] + p;
    if x in p[..n - 1] {
      var j :| 0 <= j < n - 1 && p[j] == x;
      assert q[..n][0] == q[..n][j + 1];
    } else {
      forall i, j | 0 <= i < j < n ensures q[i] != q[j] {
        assert q[j] == p[..n - 1][j - 1];
      }
    }
  }

  /** On a path without repeated keys, ids repeat only where the root's id comes again. */
  lemma TidyApart(root: Bundle, store: Store, p: seq<string>, n: nat)
    requires Keyed(store) && root.bundleId.Some? && Keys(store, p) && NoRepeats(p) && 1 <= n <= |p| + 1
    ensures Apart(root, store, p, n) <==> root.bundleId.value !in p[..n - 1]
  {
    var q := [root.bundleId.value] + p;
    assert q[1..] == p;
    WalkIds(root, store, q);
    NoRepeatsFrom(root.bundleId.value, p, n);
  }

  lemma PrefixEnd(b: Bundle, store: Store, p: seq<string>, n: nat)
    requires IsPath(b, store, p) && n <= |p|
    ensures IsPath(b, store, p[..n]) && End(b, store, p[..n]) == At(b, store, p, n)
  {
    PathPrefix(b, store, p, n);
  }

  lemma ComesBack(root: Bundle, store: Store, p: seq<string>, j: nat)
    requires Keyed(store) && IsPath(root, store, p) && j < |p| && Some(p[j]) == root.bundleId
    ensures ReachesItself(root, store)
  {
    var q := p[..j + 1];
    PrefixEnd(root, store, p, j + 1);
    assert q != [] && End(root, store, q).bundleId == root.bundleId;
  }

  /** With bundles under their own ids, a lineage is sound exactly when it is tidy and does not reach the root's id. */
  lemma SoundIffTidy(root: Bundle, store: Store)
    requires Keyed(store) && root.bundleId.Some?
    ensures Sound(root, store) <==> Tidy(root, store) && !ReachesItself(root, store)
  {
    if Sound(root, store) {
      forall p | IsPath(root, store, p)
        ensures NoRepeats(p) && (p != [] ==> End(root, store, p).bundleId != root.bundleId) {
        assert Fine(root, store, p);
        SoundPath(root, store, p);
      }
      assert forall p :: IsPath(root, store, p) ==> Fine(root, store, p);
    }
    if Tidy(root, store) && !ReachesItself(root, store) {
      forall p | IsPath(root, store, p) ensures Fine(root, store, p) {
        forall j | 0 <= j < |p| ensures p[j] != root.bundleId.value {
          if p[j] == root.bundleId.value {
            ComesBack(root, store, p, j);
          }
        }
        TidyApart(root, store, p, |p| + 1);
      }
    }
  }

  lemma SoundPath(root: Bundle, store: Store, p: seq<string>)
    requires Keyed(store) && root.bundleId.Some? && IsPath(root, store, p) && Apart(root, store, p, |p| + 1)
    ensures NoRepeats(p) && (p != [] ==> End(root, store, p).bundleId != root.bundleId)
  {
    var q := [root.bundleId.value] + p;
    assert q[1..] == p && q[..|q|] == q;
    WalkIds(root, store, q);
    forall i, j | 0 <= i < j < |p| ensures p[i] != p[j] {
      assert q[i + 1] != q[j + 1];
    }
    if p != [] {
      assert At(root, store, p, 0).bundleId != At(root, store, p, |p|).bundleId;
    }
  }

  // ---------------------------------------------------------------- topological orders

  /** All references of the bundle resolve, to bundles that claim ids claimed before; its own id is new. */
  ghost predicate Settled(store: Store, before: seq<Bundle>, b: Bundle) {
    && b.bundleId.Some? && b.bundleId.value !in Claimed(before)
    && AllResolve(store, b.refs)
    && forall j :: 0 <= j < |b.refs| ==>
         store[b.refs[j].parentId].bundleId.Some? && store[b.refs[j].parentId].bundleId.value in Claimed(before)
  }

  ghost predicate Topological(store: Store, order: seq<Bundle>) {
    forall i :: 0 <= i < |order| ==> Settled(store, order[..i], order[i])
  }

  lemma ExtendTopological(store: Store, order: seq<Bundle>, b: Bundle)
    requires Topological(store, order) && Settled(store, order, b)
    ensures Topological(store, order + [b])
    ensures Claimed(order + [b]) == Claimed(order) + {b.bundleId.value}
  {
    var o := order + [b];
    forall i | 0 <= i < |o| ensures Settled(store, o[..i], o[i]) {
      assert o[..i] == if i < |order| then order[..i] else order;
    }
    assert forall x :: x in o <==> x in order || x == b;
  }

  ghost predicate AllReached(root: Bundle, store: Store, order: seq<Bundle>) {
    forall i :: 0 <= i < |order| ==> Reached(root, store, order[i])
  }

  lemma ReachedNext(root: Bundle, store: Store, b: Bundle, p: seq<string>)
    requires Reached(root, store, b) && IsPath(b, store, p)
    ensures Reached(root, store, End(b, store, p))
  {
    var q :| IsPath(root, store, q) && End(root, store, q) == b;
    PathConcat(root, store, q, p);
  }

  /** In a topological order of reachable bundles, all are sound if bundles that claim one id agree. */
  lemma {:induction false} TopologicalIsSound(root: Bundle, store: Store, order: seq<Bundle>, i: nat)
    requires Topological(store, order) && AllReached(root, store, order) && Agreeing(root, store) && i < |order|
    ensures Sound(order[i], store)
    decreases i
  {
    var b := order[i];
    assert Settled(store, order[..i], b);
    assert Reached(root, store, b);
    forall j | 0 <= j < |b.refs| ensures Sound(store[b.refs[j].parentId], store) {
      var t := store[b.refs[j].parentId];
      assert t.bundleId.value in Claimed(order[..i]);
      var earlier :| earlier in order[..i] && earlier.bundleId == t.bundleId;
      var k :| 0 <= k < i && order[k] == earlier;
      TopologicalIsSound(root, store, order, k);
      assert Reached(root, store, order[k]);
      OneStep(b, store, b.refs[j].parentId);
      ReachedNext(root, store, b, [b.refs[j].parentId]);
    }
    SoundAbove(root, store, b);
  }

  /** A bundle is sound if its parents are, and bundles that claim one id agree. */
  lemma SoundAbove(root: Bundle, store: Store, b: Bundle)
    requires Reached(root, store, b) && Agreeing(root, store) && b.bundleId.Some? && AllResolve(store, b.refs)
    requires forall j :: 0 <= j < |b.refs| ==> Sound(store[b.refs[j].parentId], store)
    ensures Sound(b, store)
  {
    if p :| IsPath(b, store, p) && !Fine(b, store, p) {
      SoundParent(b, store, p);
      FineTail(b, store, p);
      var k := ClaimedAgain(b, store, p);
      SoundAt(store[p[0]], store, p[1..], k - 1);
      SoundWithSameId(root, store, b, At(b, store, p, k));
    }
  }

  lemma SoundParent(b: Bundle, store: Store, p: seq<string>)
    requires IsPath(b, store, p) && !Fine(b, store, p) && b.bundleId.Some? && AllResolve(store, b.refs)
    requires forall j :: 0 <= j < |b.refs| ==> Sound(store[b.refs[j].parentId], store)
    ensures p != [] && Sound(store[p[0]], store)
  {
    assert p != [] ==> Leads(At(b, store, p, 0), store, p[0]);
  }

  /** A bundle is sound if it reaches a sound one that claims its id, and bundles that claim one id agree. */
  lemma SoundWithSameId(root: Bundle, store: Store, b: Bundle, c: Bundle)
    requires Reached(root, store, b) && Agreeing(root, store) && b.bundleId.Some?
    requires Reached(b, store, c) && c.bundleId == b.bundleId && Sound(c, store)
    ensures Sound(b, store)
  {
    var q :| IsPath(b, store, q) && End(b, store, q) == c;
    ReachedNext(root, store, b, q);
  }

  lemma FineTail(b: Bundle, store: Store, p: seq<string>)
    requires IsPath(b, store, p) && p != [] && Sound(store[p[0]], store)
    ensures IsPath(store[p[0]], store, p[1..]) && Fine(store[p[0]], store, p[1..])
  {
    PathSuffix(b, store, p, 1);
  }

  lemma ClaimedAgain(b: Bundle, store: Store, p: seq<string>) returns (k: nat)
    requires IsPath(b, store, p) && p != [] && b.bundleId.Some? && !Fine(b, store, p)
    requires IsPath(store[p[0]], store, p[1..]) && Fine(store[p[0]], store, p[1..])
    ensures 1 <= k <= |p| && At(b, store, p, k).bundleId == b.bundleId
    ensures At(store[p[0]], store, p[1..], k - 1) == At(b, store, p, k) && Reached(b, store, At(b, store, p, k))
  {
    k := ShareId(b, store, p);
    ReachedAt(b, store, p, k);
    SuffixAt(b, store, p, 1);
    assert At(store[p[0]], store, p[1..], k - 1) == At(b, store, p, 1 + (k - 1));
  }

  lemma ReachedAt(b: Bundle, store: Store, p: seq<string>, n: nat)
    requires IsPath(b, store, p) && n <= |p|
    ensures Reached(b, store, At(b, store, p, n))
  {
    PrefixEnd(b, store, p, n);
  }

  lemma SoundAt(b: Bundle, store: Store, p: seq<string>, n: nat)
    requires Sound(b, store) && IsPath(b, store, p) && n <= |p|
    ensures Sound(At(b, store, p, n), store)
  {
    PrefixEnd(b, store, p, n);
    SoundReaches(b, store, p[..n]);
  }

  /** When the path is fine from its first key on but not as a whole, some bundle claims the first one's id again. */
  lemma ShareId(b: Bundle, store: Store, p: seq<string>) returns (k: nat)
    requires IsPath(b, store, p) && p != [] && b.bundleId.Some? && !Fine(b, store, p)
    requires IsPath(store[p[0]], store, p[1..]) && Fine(store[p[0]], store, p[1..])
    ensures 1 <= k <= |p| && At(b, store, p, k).bundleId == b.bundleId
  {
    PathSuffix(b, store, p, 1);
    var t, q := store[p[0]], p[1..];
    assert End(t, store, q) == End(b, store, p);
    if i :| 0 <= i <= |q| && At(t, store, q, i).bundleId == b.bundleId {
      k := 1 + i;
    } else {
      ApartFrom(b, store, p);
      assert false;
    }
  }

  lemma ApartFrom(b: Bundle, store: Store, p: seq<string>)
    requires Keys(store, p) && p != [] && b.bundleId.Some?
    requires Keys(store, p[1..]) && Apart(store[p[0]], store, p[1..], |p|)
    requires forall i :: 0 <= i < |p| ==> At(store[p[0]], store, p[1..], i).bundleId != b.bundleId
    ensures Apart(b, store, p, |p| + 1)
  {
    var t, q := store[p[0]], p[1..];
    SuffixAt(b, store, p, 1);
    forall i | 1 <= i <= |p| ensures At(b, store, p, i) == At(t, store, q, i - 1) {
      assert At(t, store, q, i - 1) == At(b, store, p, 1 + (i - 1));
    }
    forall i, j | 0 <= i < j <= |p| ensures At(b, store, p, i).bundleId != At(b, store, p, j).bundleId {
      if i > 0 {
        assert At(t, store, q, i - 1).bundleId != At(t, store, q, j - 1).bundleId;
      }
    }
  }

  // ---------------------------------------------------------------- the order in which references are read

  /**
    A position is a list of reference numbers to follow. `q` comes before `p` when references are read in
    order, a position before those inside it.
   */
  predicate Before(q: seq<nat>, p: seq<nat>) {
    p != [] && (q == [] || q[0] < p[0] || (q[0] == p[0] && Before(q[1..], p[1..])))
  }

  lemma {:induction false} BeforeTotal(q: seq<nat>, p: seq<nat>)
    ensures Before(q, p) || Before(p, q) || p == q
  {
    if p != [] && q != [] && p[0] == q[0] {
      BeforeTotal(q[1..], p[1..]);
      assert p == [p[0]] + p[1..] && q == [q[0]] + q[1..];
    }
  }
}
