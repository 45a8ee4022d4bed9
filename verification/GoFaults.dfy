/**
  The Go lineage check on any input: its error is the first fault in the order in which references are
  read, and there is none exactly when it accepts.

  A position is a list of reference numbers to follow from the bundle. What the shared visited set amounts
  to is said without it: an id is refused when a reference read before has it too.
 */
module GoFaults {
  import opened Utf8
  import opened LineageGraph
  import opened LineageGo

  /** What does not change during a run. */
  datatype Context = Context(store: Store, digest: ContentDigest, maxDepth: nat)

  /** The reference at the position; `None` when there is no such reference or no bundle on the way. */
  function RefAt(refs: seq<ParentRef>, store: Store, p: seq<nat>): Option<ParentRef>
    decreases |p|
  {
    if p == [] || p[0] >= |refs| then None
    else if |p| == 1 then Some(refs[p[0]])
    else if refs[p[0]].parentId in store then RefAt(store[refs[p[0]].parentId].refs, store, p[1..])
    else None
  }

  /** The position has a reference to this id. */
  predicate Refers(refs: seq<ParentRef>, store: Store, p: seq<nat>, id: string) {
    RefAt(refs, store, p).Some? && RefAt(refs, store, p).value.parentId == id
  }

  /** A reference that is read before this position has the id. */
  ghost predicate MetBefore(refs: seq<ParentRef>, store: Store, p: seq<nat>, id: string) {
    exists q :: Before(q, p) && Refers(refs, store, q, id)
  }

  /** The algorithm for the digest of a parent: of the reference, the parent's metadata, or its seal. */
  function AlgorithmFor(r: ParentRef, parent: Bundle): string {
    if r.digestAlg == "" && parent.metaAlg == "" then parent.sealAlg
    else if r.digestAlg == "" then parent.metaAlg
    else r.digestAlg
  }

  /** What is wrong with a reference apart from its place. */
  function RefFault(r: ParentRef, x: Context): Option<GoError> {
    if r.parentId !in x.store then Some(NotFound(r.parentId))
    else match x.digest(AlgorithmFor(r, x.store[r.parentId]), x.store[r.parentId])
      case None => Some(DigestFailed(r.parentId))
      case Some(d) => if d == r.parentDigest then None else Some(DigestMismatch(r.parentId))
  }

  /**
    The fault at a position, where the references of the list stand at `depth` and `visited` was met before
    them: too deep, an id met before, or a reference that fails.
   */
  ghost function FaultAt(refs: seq<ParentRef>, x: Context, visited: set<string>, depth: nat, p: seq<nat>)
      : Option<GoError>
  {
    match RefAt(refs, x.store, p)
    case None => None
    case Some(r) =>
      if depth + |p| > x.maxDepth then Some(DepthExceeded)
      else if r.parentId in visited || MetBefore(refs, x.store, p, r.parentId) then Some(Cycle(r.parentId))
      else RefFault(r, x)
  }

  ghost predicate FirstFault(refs: seq<ParentRef>, x: Context, visited: set<string>, depth: nat, p: seq<nat>,
                             e: GoError) {
    && FaultAt(refs, x, visited, depth, p) == Some(e)
    && forall q :: Before(q, p) ==> FaultAt(refs, x, visited, depth, q) == None
  }

  // ---------------------------------------------------------------- positions in the first reference and after it

  lemma AtFirst(refs: seq<ParentRef>, store: Store)
    requires refs != []
    ensures RefAt(refs, store, [0]) == Some(refs[0])
    ensures forall q :: Before(q, [0]) ==> q == []
  {
    var p: seq<nat> := [0];
    assert |p| == 1 && p[0] == 0 && p[1..] == [];
    forall q | Before(q, p) ensures q == [] {
      assert q != [] ==> !Before(q[1..], p[1..]);
    }
  }

  lemma BelowFirst(refs: seq<ParentRef>, store: Store, q: seq<nat>)
    requires refs != [] && refs[0].parentId in store && q != []
    ensures RefAt(refs, store, [0] + q) == RefAt(store[refs[0].parentId].refs, store, q)
  {
    assert ([0] + q)[1..] == q;
  }

  lemma AfterFirst(refs: seq<ParentRef>, store: Store, p: seq<nat>)
    requires refs != [] && p != [] && p[0] > 0
    ensures RefAt(refs, store, p) == RefAt(refs[1..], store, [p[0] - 1] + p[1..])
  {
    assert ([p[0] - 1] + p[1..])[1..] == p[1..];
  }

  /** Below the first reference its id counts as met. */
  lemma FaultBelowFirst(refs: seq<ParentRef>, x: Context, visited: set<string>, depth: nat, q: seq<nat>)
    requires refs != [] && refs[0].parentId in x.store && q != []
    ensures FaultAt(refs, x, visited, depth, [0] + q)
            == FaultAt(x.store[refs[0].parentId].refs, x, visited + {refs[0].parentId}, depth + 1, q)
  {
    var p, id := [0] + q, refs[0].parentId;
    var above := x.store[id].refs;
    BelowFirst(refs, x.store, q);
    forall k ensures MetBefore(refs, x.store, p, k) <==> k == id || MetBefore(above, x.store, q, k) {
      MetBelowFirst(refs, x.store, q, k);
    }
  }

  lemma MetBelowFirst(refs: seq<ParentRef>, store: Store, q: seq<nat>, k: string)
    requires refs != [] && refs[0].parentId in store && q != []
    ensures MetBefore(refs, store, [0] + q, k)
            <==> k == refs[0].parentId || MetBefore(store[refs[0].parentId].refs, store, q, k)
  {
    var p := [0] + q;
    var above := store[refs[0].parentId].refs;
    assert p[1..] == q;
    AtFirst(refs, store);
    var first: seq<nat> := [0];
    assert Before(first, p) && Refers(refs, store, first, refs[0].parentId);
    if o :| Before(o, p) && Refers(refs, store, o, k) {
      assert o == [0] + o[1..];
      if o[1..] == [] {
        assert o == first;
      } else {
        BelowFirst(refs, store, o[1..]);
        assert Before(o[1..], q) && Refers(above, store, o[1..], k);
      }
    }
    if o :| Before(o, q) && Refers(above, store, o, k) {
      BelowFirst(refs, store, o);
      assert ([0] + o)[1..] == o;
      assert Before([0] + o, p) && Refers(refs, store, [0] + o, k);
    }
  }

  /** The ids that are met at the first reference and below it. */
  ghost predicate MetAtFirst(refs: seq<ParentRef>, store: Store, id: string) {
    exists q: seq<nat> :: Refers(refs, store, [0] + q, id)
  }

  /** After the first reference, what was met at it and below it counts as met. */
  lemma FaultAfterFirst(refs: seq<ParentRef>, x: Context, visited: set<string>, visited': set<string>, depth: nat,
                        p: seq<nat>)
    requires refs != [] && p != [] && p[0] > 0
    requires forall id :: id in visited' <==> id in visited || MetAtFirst(refs, x.store, id)
    ensures FaultAt(refs, x, visited, depth, p) == FaultAt(refs[1..], x, visited', depth, [p[0] - 1] + p[1..])
  {
    var p' := [p[0] - 1] + p[1..];
    AfterFirst(refs, x.store, p);
    forall k
      ensures MetBefore(refs, x.store, p, k)
              <==> MetAtFirst(refs, x.store, k) || MetBefore(refs[1..], x.store, p', k)
    {
      MetBeforeLater(refs, x.store, p, k);
    }
  }

  lemma MetBeforeLater(refs: seq<ParentRef>, store: Store, p: seq<nat>, k: string)
    requires refs != [] && p != [] && p[0] > 0
    ensures MetBefore(refs, store, p, k)
            <==> MetAtFirst(refs, store, k) || MetBefore(refs[1..], store, [p[0] - 1] + p[1..], k)
  {
    var p' := [p[0] - 1] + p[1..];
    assert p'[1..] == p[1..];
    if o :| Before(o, p) && Refers(refs, store, o, k) {
      if o[0] == 0 {
        assert o == [0] + o[1..];
      } else {
        var o' := [o[0] - 1] + o[1..];
        assert o'[1..] == o[1..];
        AfterFirst(refs, store, o);
        assert Before(o', p') && Refers(refs[1..], store, o', k);
      }
    }
    if q: seq<nat> :| Refers(refs, store, [0] + q, k) {
      assert Before([0] + q, p);
    }
    if o' :| Before(o', p') && Refers(refs[1..], store, o', k) {
      var o: seq<nat> := [o'[0] + 1] + o'[1..];
      assert o[1..] == o'[1..] && [o[0] - 1] + o[1..] == o';
      AfterFirst(refs, store, o);
      assert Before(o, p) && Refers(refs, store, o, k);
    }
  }

  // ---------------------------------------------------------------- one reference

  /** The first reference, by itself. */
  lemma FaultOfFirst(refs: seq<ParentRef>, x: Context, visited: set<string>, depth: nat)
    requires refs != []
    ensures FaultAt(refs, x, visited, depth, [0]) ==
              if depth >= x.maxDepth then Some(DepthExceeded)
              else if refs[0].parentId in visited then Some(Cycle(refs[0].parentId))
              else RefFault(refs[0], x)
  {
    AtFirst(refs, x.store);
  }

  lemma ChaseIs(refs: seq<ParentRef>, x: Context, visited: set<string>, depth: nat)
    requires refs != [] && depth <= x.maxDepth
    ensures var r := refs[0];
            match FaultAt(refs, x, visited, depth, [0])
            case Some(e) => Chase(r, x.store, x.digest, visited, depth, x.maxDepth) == Rejected(e)
            case None =>
              && depth < x.maxDepth && r.parentId in x.store
              && Chase(r, x.store, x.digest, visited, depth, x.maxDepth)
                 == ChaseAll(x.store[r.parentId].refs, x.store, x.digest, visited + {r.parentId}, depth + 1, x.maxDepth)
  {
    FaultOfFirst(refs, x, visited, depth);
  }

  // ---------------------------------------------------------------- a whole list

  /** No position has a fault, and the ids met are those that were added. */
  ghost predicate AllMet(refs: seq<ParentRef>, x: Context, visited: set<string>, depth: nat, visited': set<string>) {
    && (forall p :: FaultAt(refs, x, visited, depth, p) == None)
    && (forall id :: id in visited' <==> id in visited || exists p :: Refers(refs, x.store, p, id))
  }

  ghost predicate Exact(refs: seq<ParentRef>, x: Context, visited: set<string>, depth: nat, chain: Chain) {
    match chain
    case Accepted(visited') => AllMet(refs, x, visited, depth, visited')
    case Rejected(e) => exists p :: FirstFault(refs, x, visited, depth, p, e)
  }

  lemma {:induction false} ChaseAllIsFirstFault(refs: seq<ParentRef>, x: Context, visited: set<string>, depth: nat)
    requires depth <= x.maxDepth
    ensures Exact(refs, x, visited, depth, ChaseAll(refs, x.store, x.digest, visited, depth, x.maxDepth))
    decreases x.maxDepth - depth, |refs|
  {
    if refs != [] {
      ChaseIs(refs, x, visited, depth);
      var r := refs[0];
      match FaultAt(refs, x, visited, depth, [0]) {
        case Some(e) =>
          FirstIsFirst(refs, x, visited, depth, e);
        case None =>
          var above := x.store[r.parentId].refs;
          ChaseAllIsFirstFault(above, x, visited + {r.parentId}, depth + 1);
          var first := ChaseAll(above, x.store, x.digest, visited + {r.parentId}, depth + 1, x.maxDepth);
          match first {
            case Rejected(e) =>
              var inner, below := visited + {r.parentId}, depth + 1;
              var q :| FirstFault(above, x, inner, below, q, e);
              BelowIsFirst(refs, x, visited, depth, q, e);
            case Accepted(visited') =>
              ChaseAllIsFirstFault(refs[1..], x, visited', depth);
              FirstIsClean(refs, x, visited, depth, visited');
              match ChaseAll(refs[1..], x.store, x.digest, visited', depth, x.maxDepth) {
                case Rejected(e) => AfterIsFirst(refs, x, visited, depth, visited', e);
                case Accepted(visited'') => AllClean(refs, x, visited, depth, visited', visited'');
              }
          }
      }
    }
  }

  lemma FirstIsFirst(refs: seq<ParentRef>, x: Context, visited: set<string>, depth: nat, e: GoError)
    requires refs != [] && FaultAt(refs, x, visited, depth, [0]) == Some(e)
    ensures FirstFault(refs, x, visited, depth, [0], e)
  {
    AtFirst(refs, x.store);
  }

  lemma BelowIsFirst(refs: seq<ParentRef>, x: Context, visited: set<string>, depth: nat, q: seq<nat>,
                     e: GoError)
    requires refs != [] && refs[0].parentId in x.store && FaultAt(refs, x, visited, depth, [0]) == None
    requires FirstFault(x.store[refs[0].parentId].refs, x, visited + {refs[0].parentId}, depth + 1, q, e)
    ensures exists p :: FirstFault(refs, x, visited, depth, p, e)
  {
    var p := [0] + q;
    assert p[1..] == q && q != [];
    FaultBelowFirst(refs, x, visited, depth, q);
    forall o | Before(o, p) ensures FaultAt(refs, x, visited, depth, o) == None {
      if o != [] {
        assert o == [0] + o[1..];
        if o[1..] != [] {
          FaultBelowFirst(refs, x, visited, depth, o[1..]);
        } else {
          assert o == [0];
        }
      }
    }
    assert FirstFault(refs, x, visited, depth, p, e);
  }

  /** No fault at the first reference nor below it. */
  ghost predicate FirstClean(refs: seq<ParentRef>, x: Context, visited: set<string>, depth: nat) {
    forall q: seq<nat> {:trigger FaultAt(refs, x, visited, depth, [0] + q)} ::
      FaultAt(refs, x, visited, depth, [0] + q) == None
  }

  lemma FirstIsClean(refs: seq<ParentRef>, x: Context, visited: set<string>, depth: nat, visited': set<string>)
    requires refs != [] && refs[0].parentId in x.store && FaultAt(refs, x, visited, depth, [0]) == None
    requires AllMet(x.store[refs[0].parentId].refs, x, visited + {refs[0].parentId}, depth + 1, visited')
    ensures FirstClean(refs, x, visited, depth)
    ensures forall id :: id in visited' <==> id in visited || MetAtFirst(refs, x.store, id)
  {
    var above := x.store[refs[0].parentId].refs;
    forall q: seq<nat> ensures FaultAt(refs, x, visited, depth, [0] + q) == None {
      if q == [] {
        assert [0] + q == [0];
      } else {
        FaultBelowFirst(refs, x, visited, depth, q);
      }
    }
    forall id ensures id in visited' <==> id in visited || MetAtFirst(refs, x.store, id) {
      MetAtFirstIs(refs, x.store, id);
    }
  }

  lemma MetAtFirstIs(refs: seq<ParentRef>, store: Store, id: string)
    requires refs != [] && refs[0].parentId in store
    ensures MetAtFirst(refs, store, id)
            <==> id == refs[0].parentId || exists p :: Refers(store[refs[0].parentId].refs, store, p, id)
  {
    AtFirst(refs, store);
    var none: seq<nat> := [];
    assert [0] + none == [0];
    assert Refers(refs, store, [0] + none, refs[0].parentId);
    if q: seq<nat> :| Refers(refs, store, [0] + q, id) {
      if q == [] {
        assert [0] + q == [0];
      } else {
        BelowFirst(refs, store, q);
        assert Refers(store[refs[0].parentId].refs, store, q, id);
      }
    }
    if p :| Refers(store[refs[0].parentId].refs, store, p, id) {
      BelowFirst(refs, store, p);
      assert Refers(refs, store, [0] + p, id);
    }
  }

  lemma AfterIsFirst(refs: seq<ParentRef>, x: Context, visited: set<string>, depth: nat, visited': set<string>,
                     e: GoError)
    requires refs != [] && FirstClean(refs, x, visited, depth)
    requires forall id :: id in visited' <==> id in visited || MetAtFirst(refs, x.store, id)
    requires exists q :: FirstFault(refs[1..], x, visited', depth, q, e)
    ensures exists p :: FirstFault(refs, x, visited, depth, p, e)
  {
    var q :| FirstFault(refs[1..], x, visited', depth, q, e);
    assert q != [];
    var p: seq<nat> := [q[0] + 1] + q[1..];
    assert p[1..] == q[1..] && [p[0] - 1] + p[1..] == q;
    FaultAfterFirst(refs, x, visited, visited', depth, p);
    forall o | Before(o, p) ensures FaultAt(refs, x, visited, depth, o) == None {
      CleanBefore(refs, x, visited, depth, visited', q, e, o);
    }
    assert FirstFault(refs, x, visited, depth, p, e);
  }

  lemma CleanBefore(refs: seq<ParentRef>, x: Context, visited: set<string>, depth: nat, visited': set<string>,
                    q: seq<nat>, e: GoError, o: seq<nat>)
    requires refs != [] && FirstClean(refs, x, visited, depth) && q != []
    requires forall id :: id in visited' <==> id in visited || MetAtFirst(refs, x.store, id)
    requires FirstFault(refs[1..], x, visited', depth, q, e) && Before(o, [q[0] + 1] + q[1..])
    ensures FaultAt(refs, x, visited, depth, o) == None
  {
    assert ([q[0] + 1] + q[1..])[1..] == q[1..];
    if o != [] {
      if o[0] == 0 {
        assert o == [0] + o[1..];
      } else {
        var o' := [o[0] - 1] + o[1..];
        assert o'[1..] == o[1..];
        FaultAfterFirst(refs, x, visited, visited', depth, o);
        assert Before(o', q);
      }
    }
  }

  lemma AllClean(refs: seq<ParentRef>, x: Context, visited: set<string>, depth: nat, visited': set<string>,
                 visited'': set<string>)
    requires refs != [] && FirstClean(refs, x, visited, depth)
    requires forall id :: id in visited' <==> id in visited || MetAtFirst(refs, x.store, id)
    requires AllMet(refs[1..], x, visited', depth, visited'')
    ensures AllMet(refs, x, visited, depth, visited'')
  {
    forall p ensures FaultAt(refs, x, visited, depth, p) == None {
      if p != [] {
        if p[0] == 0 {
          assert p == [0] + p[1..];
        } else {
          FaultAfterFirst(refs, x, visited, visited', depth, p);
        }
      }
    }
    forall id ensures (exists p :: Refers(refs, x.store, p, id))
                      <==> MetAtFirst(refs, x.store, id) || exists p :: Refers(refs[1..], x.store, p, id)
    {
      MetInAll(refs, x.store, id);
    }
  }

  lemma MetInAll(refs: seq<ParentRef>, store: Store, id: string)
    requires refs != []
    ensures (exists p :: Refers(refs, store, p, id))
            <==> MetAtFirst(refs, store, id) || exists p :: Refers(refs[1..], store, p, id)
  {
    if p :| Refers(refs, store, p, id) {
      if p[0] == 0 {
        assert p == [0] + p[1..];
      } else {
        AfterFirst(refs, store, p);
        assert Refers(refs[1..], store, [p[0] - 1] + p[1..], id);
      }
    }
    if p' :| Refers(refs[1..], store, p', id) {
      var p: seq<nat> := [p'[0] + 1] + p'[1..];
      assert p[1..] == p'[1..] && [p[0] - 1] + p[1..] == p';
      AfterFirst(refs, store, p);
      assert Refers(refs, store, p, id);
    }
  }

  // ---------------------------------------------------------------- main result

  /**
    On every input Go answers nil exactly when no position has a fault, and otherwise the first fault; a limit
    that is not positive counts as 100, and of bundles with one id the last is looked up.
   */
  lemma ErrorIsFirstFault(root: Bundle, bundles: seq<Bundle>, digest: ContentDigest, maxDepth: int)
    ensures var x := Context(IndexById(bundles), digest, if maxDepth > 0 then maxDepth else 100);
            && (Answer(root, bundles, digest, maxDepth) == None
                <==> forall p :: FaultAt(root.refs, x, {}, 0, p) == None)
            && forall p, e :: FirstFault(root.refs, x, {}, 0, p, e) ==>
                 Answer(root, bundles, digest, maxDepth) == Some(e)
  {
    var x := Context(IndexById(bundles), digest, if maxDepth > 0 then maxDepth else 100);
    ChaseAllIsFirstFault(root.refs, x, {}, 0);
    match ChaseAll(root.refs, x.store, x.digest, {}, 0, x.maxDepth) {
      case Accepted(_) =>
      case Rejected(e) =>
        var p :| FirstFault(root.refs, x, {}, 0, p, e);
        forall q, e' | FirstFault(root.refs, x, {}, 0, q, e') ensures e' == e {
          BeforeTotal(q, p);
        }
    }
  }
}
