/**
  The Python lineage check on any input: its verdict is the first fault in the order in which references
  are read.

  A position is a list of reference numbers to follow from the bundle. `FaultAt` says what is wrong at one
  position, looking only at the way there; no condition is put on the bundles, the map or the digests.
 */
module PythonFaults {
  import opened Utf8
  import opened LineageGraph
  import opened LineagePython

  /** What is wrong with the reference itself. */
  ghost function RefFault(r: ParentRef, run: Run): Option<Verdict> {
    if (r.parentId, r.parentDigest) !in run.parents then Some(Invalid(ParentNotFound(r.parentId)))
    else
      var d := run.digest(r.digestAlg, run.parents[(r.parentId, r.parentDigest)]);
      if d == None then Some(RaisedDigestError)
      else if d == Some(r.parentDigest) then None
      else Some(Invalid(DigestMismatch(r.parentId)))
  }

  /** The bundle at the position; `None` when some reference on the way does not resolve. */
  ghost function BundleAt(b: Bundle, run: Run, p: seq<nat>): Option<Bundle>
    decreases |p|
  {
    if p == [] then Some(b)
    else if p[0] < |b.refs| && RefFault(b.refs[p[0]], run) == None then
      BundleAt(run.parents[(b.refs[p[0]].parentId, b.refs[p[0]].parentDigest)], run, p[1..])
    else None
  }

  /** The ids of the bundles before the position; a bundle without an id adds none. */
  ghost function IdsBefore(b: Bundle, run: Run, p: seq<nat>): set<string> {
    set j | 0 <= j < |p| && BundleAt(b, run, p[..j]).Some? && IdOf(BundleAt(b, run, p[..j]).value) != ""
      :: IdOf(BundleAt(b, run, p[..j]).value)
  }

  /**
    The fault at a position, for a call that inherits `visited` and may nest `frames` deep: too many nested
    calls, too many ids before a bundle that has references, its id among them; or a reference that fails.
   */
  ghost function FaultAt(b: Bundle, run: Run, visited: set<string>, frames: nat, p: seq<nat>): Option<Verdict> {
    match BundleAt(b, run, p)
    case Some(c) =>
      var before := visited + IdsBefore(b, run, p);
      if |p| >= frames then if |p| == frames then Some(RaisedRecursionError) else None
      else if c.refs == [] then None
      else if run.maxDepth <= |before| then Some(Invalid(MaxDepthExceeded))
      else if IdOf(c) != "" && IdOf(c) in before then Some(Invalid(CycleDetected))
      else None
    case None =>
      var q, i := p[..|p| - 1], p[|p| - 1];
      if BundleAt(b, run, q).Some? && i < |BundleAt(b, run, q).value.refs| && |q| < frames
      then RefFault(BundleAt(b, run, q).value.refs[i], run) else None
  }

  ghost predicate FirstFault(b: Bundle, run: Run, visited: set<string>, frames: nat, p: seq<nat>, v: Verdict) {
    && FaultAt(b, run, visited, frames, p) == Some(v)
    && forall q :: Before(q, p) ==> FaultAt(b, run, visited, frames, q) == None
  }

  // ---------------------------------------------------------------- one step down

  ghost function Next(b: Bundle, run: Run, i: nat): Bundle
    requires i < |b.refs| && RefFault(b.refs[i], run) == None
  {
    run.parents[(b.refs[i].parentId, b.refs[i].parentDigest)]
  }

  ghost function Entered(b: Bundle, visited: set<string>): set<string> {
    if IdOf(b) != "" then visited + {IdOf(b)} else visited
  }

  lemma PrefixOfCons(i: nat, q: seq<nat>, j: nat)
    requires j <= |q|
    ensures ([i] + q)[..j + 1] == [i] + q[..j] && ([i] + q)[1..] == q
  {
  }

  lemma BundleAtNext(b: Bundle, run: Run, i: nat, q: seq<nat>)
    requires i < |b.refs| && RefFault(b.refs[i], run) == None
    ensures BundleAt(b, run, [i] + q) == BundleAt(Next(b, run, i), run, q)
  {
    PrefixOfCons(i, q, 0);
  }

  lemma IdsBeforeNext(b: Bundle, run: Run, visited: set<string>, i: nat, q: seq<nat>)
    requires i < |b.refs| && RefFault(b.refs[i], run) == None
    ensures visited + IdsBefore(b, run, [i] + q) == Entered(b, visited) + IdsBefore(Next(b, run, i), run, q)
  {
    var p, c := [i] + q, Next(b, run, i);
    assert p[..0] == [] && BundleAt(b, run, p[..0]) == Some(b);
    forall j | 0 <= j < |q| ensures BundleAt(b, run, p[..j + 1]) == BundleAt(c, run, q[..j]) {
      PrefixOfCons(i, q, j);
      BundleAtNext(b, run, i, q[..j]);
    }
    forall id ensures id in visited + IdsBefore(b, run, p) <==> id in Entered(b, visited) + IdsBefore(c, run, q) {
      if id in IdsBefore(b, run, p) {
        var j :| 0 <= j < |p| && BundleAt(b, run, p[..j]).Some? && IdOf(BundleAt(b, run, p[..j]).value) != ""
                 && id == IdOf(BundleAt(b, run, p[..j]).value);
        if j > 0 {
          assert BundleAt(b, run, p[..(j - 1) + 1]) == BundleAt(c, run, q[..j - 1]);
        }
      }
      if id in IdsBefore(c, run, q) {
        var j :| 0 <= j < |q| && BundleAt(c, run, q[..j]).Some? && IdOf(BundleAt(c, run, q[..j]).value) != ""
                 && id == IdOf(BundleAt(c, run, q[..j]).value);
        assert BundleAt(b, run, p[..j + 1]) == BundleAt(c, run, q[..j]);
      }
    }
  }

  /** What is wrong inside the next bundle is wrong there for the recursive call. */
  lemma FaultNext(b: Bundle, run: Run, visited: set<string>, frames: nat, i: nat, q: seq<nat>)
    requires frames > 0 && i < |b.refs| && RefFault(b.refs[i], run) == None
    ensures FaultAt(b, run, visited, frames, [i] + q)
            == FaultAt(Next(b, run, i), run, Entered(b, visited), frames - 1, q)
  {
    var p := [i] + q;
    BundleAtNext(b, run, i, q);
    IdsBeforeNext(b, run, visited, i, q);
    if BundleAt(b, run, p) == None {
      assert q != [];
      assert p[..|p| - 1] == [i] + q[..|q| - 1];
      BundleAtNext(b, run, i, q[..|q| - 1]);
    }
  }

  /** Behind a reference that fails, nothing else is wrong. */
  lemma FaultHere(b: Bundle, run: Run, visited: set<string>, frames: nat, i: nat, q: seq<nat>)
    requires frames > 0 && (i >= |b.refs| || RefFault(b.refs[i], run) != None)
    ensures FaultAt(b, run, visited, frames, [i] + q)
            == if q == [] && i < |b.refs| then RefFault(b.refs[i], run) else None
  {
    var p := [i] + q;
    assert BundleAt(b, run, p) == None;
    if q == [] {
      assert p[..0] == [];
    } else {
      assert p[..|p| - 1] == [i] + q[..|q| - 1];
      assert BundleAt(b, run, [i] + q[..|q| - 1]) == None;
    }
  }

  /** At the bundle itself. */
  lemma FaultOutside(b: Bundle, run: Run, visited: set<string>, frames: nat)
    ensures FaultAt(b, run, visited, frames, []) ==
              if frames == 0 then Some(RaisedRecursionError)
              else if b.refs == [] then None
              else if |visited| >= run.maxDepth then Some(Invalid(MaxDepthExceeded))
              else if IdOf(b) != "" && IdOf(b) in visited then Some(Invalid(CycleDetected))
              else None
  {
    assert IdsBefore(b, run, []) == {};
    assert visited + {} == visited;
  }

  // ---------------------------------------------------------------- the check reads positions in order

  ghost function CheckOf(b: Bundle, run: Run, visited: set<string>, frames: nat): Verdict {
    Check(b, run.parents, run.digest, run.maxDepth, visited, frames)
  }

  ghost function RefsFrom(b: Bundle, run: Run, visited: set<string>, frames: nat, i: nat): Verdict
    requires frames > 0 && i <= |b.refs|
  {
    CheckRefs(b.refs[i..], run.parents, run.digest, run.maxDepth, Entered(b, visited), frames)
  }

  lemma CheckStep(b: Bundle, run: Run, visited: set<string>, frames: nat)
    requires frames > 0
    ensures CheckOf(b, run, visited, frames) ==
              match FaultAt(b, run, visited, frames, [])
              case Some(v) => v
              case None => RefsFrom(b, run, visited, frames, 0)
  {
    FaultOutside(b, run, visited, frames);
    assert b.refs[0..] == b.refs;
  }

  lemma RefsStep(b: Bundle, run: Run, visited: set<string>, frames: nat, i: nat)
    requires frames > 0 && i < |b.refs|
    ensures RefsFrom(b, run, visited, frames, i) ==
              match RefFault(b.refs[i], run)
              case Some(v) => v
              case None =>
                var sub := CheckOf(Next(b, run, i), run, Entered(b, visited), frames - 1);
                if sub != Valid then sub else RefsFrom(b, run, visited, frames, i + 1)
  {
    assert b.refs[i..][0] == b.refs[i] && b.refs[i..][1..] == b.refs[i + 1..];
  }

  /** A valid bundle has no fault anywhere. */
  lemma {:induction false} ValidHasNoFault(b: Bundle, run: Run, visited: set<string>, frames: nat, p: seq<nat>)
    requires CheckOf(b, run, visited, frames) == Valid
    ensures FaultAt(b, run, visited, frames, p) == None
    decreases frames
  {
    CheckStep(b, run, visited, frames);
    if p != [] {
      assert p == [p[0]] + p[1..];
      if p[0] < |b.refs| {
        ValidRef(b, run, visited, frames, 0, p[0]);
        ValidHasNoFault(Next(b, run, p[0]), run, Entered(b, visited), frames - 1, p[1..]);
        FaultNext(b, run, visited, frames, p[0], p[1..]);
      } else {
        FaultHere(b, run, visited, frames, p[0], p[1..]);
      }
    }
  }

  lemma {:induction false} ValidRef(b: Bundle, run: Run, visited: set<string>, frames: nat, i: nat, k: nat)
    requires frames > 0 && i <= k < |b.refs| && RefsFrom(b, run, visited, frames, i) == Valid
    ensures RefFault(b.refs[k], run) == None
    ensures CheckOf(Next(b, run, k), run, Entered(b, visited), frames - 1) == Valid
    decreases k - i
  {
    RefsStep(b, run, visited, frames, i);
    if i < k {
      ValidRef(b, run, visited, frames, i + 1, k);
    }
  }

  /** Any other verdict is the first fault. */
  lemma {:induction false} EarliestFault(b: Bundle, run: Run, visited: set<string>, frames: nat) returns (p: seq<nat>)
    requires CheckOf(b, run, visited, frames) != Valid
    ensures FirstFault(b, run, visited, frames, p, CheckOf(b, run, visited, frames))
    decreases frames, 1, 0
  {
    FaultOutside(b, run, visited, frames);
    p := [];
    if frames > 0 {
      CheckStep(b, run, visited, frames);
      if FaultAt(b, run, visited, frames, []) == None {
        p := EarliestInRefs(b, run, visited, frames, 0);
      }
    }
  }

  /** No position before reference `i` has a fault. */
  ghost predicate CleanUpTo(b: Bundle, run: Run, visited: set<string>, frames: nat, i: nat) {
    && FaultAt(b, run, visited, frames, []) == None
    && forall j: nat, q: seq<nat> {:trigger FaultAt(b, run, visited, frames, [j] + q)} ::
         j < i ==> FaultAt(b, run, visited, frames, [j] + q) == None
  }

  /** A first fault in the subtree of reference `i` is the first of all. */
  lemma FirstOfSubtree(b: Bundle, run: Run, visited: set<string>, frames: nat, i: nat, rest: seq<nat>, v: Verdict)
    requires CleanUpTo(b, run, visited, frames, i) && FaultAt(b, run, visited, frames, [i] + rest) == Some(v)
    requires forall q :: Before(q, rest) ==> FaultAt(b, run, visited, frames, [i] + q) == None
    ensures FirstFault(b, run, visited, frames, [i] + rest, v)
  {
    var p := [i] + rest;
    assert p[1..] == rest;
    forall q | Before(q, p) ensures FaultAt(b, run, visited, frames, q) == None {
      if q != [] {
        assert q == [q[0]] + q[1..];
      }
    }
  }

  lemma {:induction false} EarliestInRefs(b: Bundle, run: Run, visited: set<string>, frames: nat, i: nat)
      returns (p: seq<nat>)
    requires frames > 0 && i <= |b.refs| && CleanUpTo(b, run, visited, frames, i)
    requires RefsFrom(b, run, visited, frames, i) != Valid
    ensures FirstFault(b, run, visited, frames, p, RefsFrom(b, run, visited, frames, i))
    decreases frames, 0, |b.refs| - i
  {
    RefsStep(b, run, visited, frames, i);
    if RefFault(b.refs[i], run) != None {
      p := [i] + [];
      FaultHere(b, run, visited, frames, i, []);
      FirstOfSubtree(b, run, visited, frames, i, [], RefFault(b.refs[i], run).value);
    } else if CheckOf(Next(b, run, i), run, Entered(b, visited), frames - 1) != Valid {
      var rest := EarliestFault(Next(b, run, i), run, Entered(b, visited), frames - 1);
      p := [i] + rest;
      FaultsNext(b, run, visited, frames, i);
      FirstOfSubtree(b, run, visited, frames, i, rest, RefsFrom(b, run, visited, frames, i));
    } else {
      CleanNext(b, run, visited, frames, i);
      p := EarliestInRefs(b, run, visited, frames, i + 1);
    }
  }

  lemma FaultsNext(b: Bundle, run: Run, visited: set<string>, frames: nat, i: nat)
    requires frames > 0 && i < |b.refs| && RefFault(b.refs[i], run) == None
    ensures forall q :: FaultAt(b, run, visited, frames, [i] + q)
                        == FaultAt(Next(b, run, i), run, Entered(b, visited), frames - 1, q)
  {
    forall q
      ensures FaultAt(b, run, visited, frames, [i] + q)
              == FaultAt(Next(b, run, i), run, Entered(b, visited), frames - 1, q)
    {
      FaultNext(b, run, visited, frames, i, q);
    }
  }

  lemma CleanNext(b: Bundle, run: Run, visited: set<string>, frames: nat, i: nat)
    requires frames > 0 && i < |b.refs| && CleanUpTo(b, run, visited, frames, i) && RefFault(b.refs[i], run) == None
    requires CheckOf(Next(b, run, i), run, Entered(b, visited), frames - 1) == Valid
    ensures CleanUpTo(b, run, visited, frames, i + 1)
  {
    forall j: nat, q: seq<nat> | j < i + 1 ensures FaultAt(b, run, visited, frames, [j] + q) == None {
      if j == i {
        ValidHasNoFault(Next(b, run, i), run, Entered(b, visited), frames - 1, q);
        FaultNext(b, run, visited, frames, i, q);
      }
    }
  }

  // ---------------------------------------------------------------- main result

  /** On every input the verdict is "valid" exactly when no position has a fault, and otherwise the first fault. */
  lemma VerdictIsFirstFault(b: Bundle, run: Run, visited: set<string>, frames: nat)
    ensures Check(b, run.parents, run.digest, run.maxDepth, visited, frames) == Valid
            <==> forall p :: FaultAt(b, run, visited, frames, p) == None
    ensures forall p, v :: FirstFault(b, run, visited, frames, p, v)
              ==> Check(b, run.parents, run.digest, run.maxDepth, visited, frames) == v
  {
    if CheckOf(b, run, visited, frames) == Valid {
      forall p ensures FaultAt(b, run, visited, frames, p) == None {
        ValidHasNoFault(b, run, visited, frames, p);
      }
    } else {
      var p := EarliestFault(b, run, visited, frames);
      forall q, v | FirstFault(b, run, visited, frames, q, v) ensures CheckOf(b, run, visited, frames) == v {
        BeforeTotal(q, p);
      }
    }
  }
}
