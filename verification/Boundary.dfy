/**
  Boundary predicates: the short-circuit evaluator of the Go implementation against the eager
  one of the TypeScript implementation, on arbitrarily nested all/any/not trees.

  Leaf atoms are answered by an oracle, which may report an error or (in TypeScript) throw.
 */
module Boundary {
  import opened Utf8

  datatype Pred = All(children: seq<Pred>) | Any(children: seq<Pred>) | Not(child: Pred) | Leaf(atom: string)

  datatype LeafAnswer = Value(b: bool) | Fault(code: string) | Throws

  type Oracle = string -> LeafAnswer

  // ---------------------------------------------------------------- Go: short-circuit

  datatype Short = Ok(b: bool) | Failed

  function EvaluateAtom(p: Pred, o: Oracle): Short
    decreases p, 1, 0
  {
    match p
    case Leaf(atom) => (match o(atom) case Value(b) => Ok(b) case _ => Failed)
    case Not(child) => (match EvaluateAtom(child, o) case Ok(b) => Ok(!b) case Failed => Failed)
    case All(children) => EvalAll(children, o)
    case Any(children) => EvalAny(children, o)
  }

  function EvalAll(ps: seq<Pred>, o: Oracle): Short
    decreases ps, 0, |ps|
  {
    if ps == [] then Ok(true) else
    match EvaluateAtom(ps[0], o)
    case Failed => Failed
    case Ok(b) => if b then EvalAll(ps[1..], o) else Ok(false)
  }

  function EvalAny(ps: seq<Pred>, o: Oracle): Short
    decreases ps, 0, |ps|
  {
    if ps == [] then Ok(false) else
    match EvaluateAtom(ps[0], o)
    case Failed => Failed
    case Ok(b) => if b then Ok(true) else EvalAny(ps[1..], o)
  }

  /** The evaluator itself, with the loops of `evalAll` and `evalAny`. */
  method Evaluate(p: Pred, o: Oracle) returns (r: Short)
    ensures r == EvaluateAtom(p, o)
    decreases p
  {
    match p {
      case Leaf(atom) =>
        match o(atom) {
          case Value(b) => return Ok(b);
          case _ => return Failed;
        }
      case Not(child) =>
        r := Evaluate(child, o);
        match r {
          case Ok(b) => return Ok(!b);
          case Failed => return Failed;
        }
      case All(children) =>
        assert children[0..] == children;
        for i := 0 to |children|
          invariant EvalAll(children[i..], o) == EvaluateAtom(p, o)
        {
          assert children[i..][0] == children[i] && children[i..][1..] == children[i + 1..];
          r := Evaluate(children[i], o);
          if r != Ok(true) {
            return;
          }
        }
        return Ok(true);
      case Any(children) =>
        assert children[0..] == children;
        for i := 0 to |children|
          invariant EvalAny(children[i..], o) == EvaluateAtom(p, o)
        {
          assert children[i..][0] == children[i] && children[i..][1..] == children[i + 1..];
          r := Evaluate(children[i], o);
          if r != Ok(false) {
            return;
          }
        }
        return Ok(false);
    }
  }

  // ---------------------------------------------------------------- TypeScript: eager

  const DEPTH_LIMIT: nat := 10

  /** A value with an optional error code, or a thrown exception. */
  datatype Eager = Done(value: bool, error: Option<string>) | Thrown

  function EvalBoundary(p: Pred, o: Oracle, depth: nat): Eager
    decreases p, 1, 0
  {
    if depth > DEPTH_LIMIT then Done(false, Some("depth")) else
    match p
    case Leaf(atom) => (match o(atom)
                        case Value(b) => Done(b, None)
                        case Fault(code) => Done(false, Some(code))
                        case Throws => Thrown)
    case Not(child) => (match EvalBoundary(child, o, depth + 1)
                        case Done(b, e) => Done(!b, e)
                        case Thrown => Thrown)
    case All(children) => (match EvalChildren(children, o, depth + 1)
                           case Some(vals) => Done(forall i :: 0 <= i < |vals| ==> vals[i].0, FirstError(vals))
                           case None => Thrown)
    case Any(children) => (match EvalChildren(children, o, depth + 1)
                           case Some(vals) => Done(exists i :: 0 <= i < |vals| && vals[i].0, FirstError(vals))
                           case None => Thrown)
  }

  /** `map` over all children; `None` when one of them throws. */
  function EvalChildren(ps: seq<Pred>, o: Oracle, depth: nat): (r: Option<seq<(bool, Option<string>)>>)
    ensures r.Some? ==> |r.value| == |ps|
    decreases ps, 0, |ps|
  {
    if ps == [] then Some([]) else
    match EvalBoundary(ps[0], o, depth)
    case Thrown => None
    case Done(b, e) =>
      match EvalChildren(ps[1..], o, depth)
      case None => None
      case Some(vals) => Some([(b, e)] + vals)
  }

  function FirstError(vals: seq<(bool, Option<string>)>): Option<string> {
    if vals == [] then None else if vals[0].1.Some? then vals[0].1 else FirstError(vals[1..])
  }

  // ---------------------------------------------------------------- what both are about

  /** No leaf anywhere in the tree faults or throws. */
  ghost predicate Clean(p: Pred, o: Oracle)
    decreases p
  {
    match p
    case Leaf(atom) => o(atom).Value?
    case Not(child) => Clean(child, o)
    case All(children) => forall i :: 0 <= i < |children| ==> Clean(children[i], o)
    case Any(children) => forall i :: 0 <= i < |children| ==> Clean(children[i], o)
  }

  /** The truth value of a clean tree. */
  ghost predicate Truth(p: Pred, o: Oracle)
    decreases p
  {
    match p
    case Leaf(atom) => o(atom).Value? && o(atom).b
    case Not(child) => !Truth(child, o)
    case All(children) => forall i :: 0 <= i < |children| ==> Truth(children[i], o)
    case Any(children) => exists i :: 0 <= i < |children| && Truth(children[i], o)
  }

  /** No path of the tree is longer than `limit`. */
  ghost predicate HeightAtMost(p: Pred, limit: int)
    decreases p
  {
    0 <= limit &&
    match p
    case Leaf(_) => true
    case Not(child) => HeightAtMost(child, limit - 1)
    case All(children) => forall i :: 0 <= i < |children| ==> HeightAtMost(children[i], limit - 1)
    case Any(children) => forall i :: 0 <= i < |children| ==> HeightAtMost(children[i], limit - 1)
  }

  /** `perm` and `inv` are inverse bijections of the indices below `n`. */
  ghost predicate Bijection(perm: seq<nat>, inv: seq<nat>, n: nat) {
    && |perm| == n && |inv| == n
    && (forall i :: 0 <= i < n ==> perm[i] < n && inv[i] < n)
    && (forall i {:trigger inv[perm[i]]} :: 0 <= i < n ==> inv[perm[i]] == i)
    && (forall i {:trigger perm[inv[i]]} :: 0 <= i < n ==> perm[inv[i]] == i)
  }

  /** `q` is `p` with the children of all/any put in another order, at every level. */
  ghost predicate Reorders(p: Pred, q: Pred)
    decreases p
  {
    match p
    case Leaf(_) => q == p
    case Not(child) => q.Not? && Reorders(child, q.child)
    case All(children) => q.All? && exists perm, inv :: Rearranged(p, children, q.children, perm, inv)
    case Any(children) => q.Any? && exists perm, inv :: Rearranged(p, children, q.children, perm, inv)
  }

  ghost predicate Rearranged(p: Pred, ps: seq<Pred>, qs: seq<Pred>, perm: seq<nat>, inv: seq<nat>)
    requires forall i :: 0 <= i < |ps| ==> ps[i] < p
    decreases p, 0
  {
    |ps| == |qs| && Bijection(perm, inv, |ps|) && forall i :: 0 <= i < |ps| ==> Reorders(ps[i], qs[perm[i]])
  }

  // ---------------------------------------------------------------- the eager side

  ghost predicate NoError(r: Eager) {
    r.Done? && r.error.None?
  }

  lemma {:induction false} EagerExact(p: Pred, o: Oracle, depth: nat)
    ensures NoError(EvalBoundary(p, o, depth)) <==> Clean(p, o) && HeightAtMost(p, 10 - depth)
    ensures NoError(EvalBoundary(p, o, depth)) ==> EvalBoundary(p, o, depth).value == Truth(p, o)
    decreases p, 1, 0
  {
    if depth <= 10 {
      match p {
        case Leaf(_) =>
        case Not(child) => EagerExact(child, o, depth + 1);
        case All(children) => EagerChildrenExact(children, o, depth + 1);
        case Any(children) => EagerChildrenExact(children, o, depth + 1);
      }
    }
  }

  lemma {:induction false} EagerChildrenExact(ps: seq<Pred>, o: Oracle, depth: nat)
    ensures var r := EvalChildren(ps, o, depth);
            && (r.Some? && FirstError(r.value).None? <==>
                  forall i :: 0 <= i < |ps| ==> Clean(ps[i], o) && HeightAtMost(ps[i], 10 - depth))
            && (r.Some? && FirstError(r.value).None? ==> forall i :: 0 <= i < |ps| ==> r.value[i].0 == Truth(ps[i], o))
    decreases ps, 0, |ps|
  {
    if ps != [] {
      EagerExact(ps[0], o, depth);
      EagerChildrenExact(ps[1..], o, depth);
      assert ps == [ps[0]] + ps[1..];
      var r, rest := EvalChildren(ps, o, depth), EvalChildren(ps[1..], o, depth);
      if r.Some? {
        assert r.value[1..] == rest.value;
      }
    }
  }

  // ---------------------------------------------------------------- the short-circuit side

  lemma {:induction false} ShortOnClean(p: Pred, o: Oracle)
    requires Clean(p, o)
    ensures EvaluateAtom(p, o) == Ok(Truth(p, o))
    decreases p, 1, 0
  {
    match p {
      case Leaf(_) =>
      case Not(child) => ShortOnClean(child, o);
      case All(children) => ShortAllOnClean(children, o);
      case Any(children) => ShortAnyOnClean(children, o);
    }
  }

  lemma {:induction false} ShortAllOnClean(ps: seq<Pred>, o: Oracle)
    requires forall i :: 0 <= i < |ps| ==> Clean(ps[i], o)
    ensures EvalAll(ps, o) == Ok(forall i :: 0 <= i < |ps| ==> Truth(ps[i], o))
    decreases ps, 0, |ps|
  {
    if ps != [] {
      ShortOnClean(ps[0], o);
      ShortAllOnClean(ps[1..], o);
      assert ps == [ps[0]] + ps[1..];
    }
  }

  lemma {:induction false} ShortAnyOnClean(ps: seq<Pred>, o: Oracle)
    requires forall i :: 0 <= i < |ps| ==> Clean(ps[i], o)
    ensures EvalAny(ps, o) == Ok(exists i :: 0 <= i < |ps| && Truth(ps[i], o))
    decreases ps, 0, |ps|
  {
    if ps != [] {
      ShortOnClean(ps[0], o);
      ShortAnyOnClean(ps[1..], o);
      var tail := ps[1..];
      assert ps == [ps[0]] + tail;
      if exists i :: 0 <= i < |ps| && Truth(ps[i], o) {
        var i :| 0 <= i < |ps| && Truth(ps[i], o);
        assert i > 0 ==> tail[i - 1] == ps[i];
      }
      if i :| 0 <= i < |tail| && Truth(tail[i], o) {
        assert ps[i + 1] == tail[i];
      }
    }
  }

  // ---------------------------------------------------------------- reordering

  lemma {:induction false} ReordersKeepsMeaning(p: Pred, q: Pred, o: Oracle)
    requires Reorders(p, q)
    ensures Clean(p, o) ==> Clean(q, o)
    ensures Truth(p, o) == Truth(q, o)
    decreases p
  {
    match p {
      case Leaf(_) =>
      case Not(child) => ReordersKeepsMeaning(child, q.child, o);
      case All(children) =>
        var perm, inv :| Rearranged(p, children, q.children, perm, inv);
        ChildrenKeepMeaning(p, children, q.children, perm, inv, o);
        MatchedConjunction(children, q.children, perm, inv, o);
      case Any(children) =>
        var perm, inv :| Rearranged(p, children, q.children, perm, inv);
        ChildrenKeepMeaning(p, children, q.children, perm, inv, o);
        MatchedDisjunction(children, q.children, perm, inv, o);
    }
  }

  lemma ChildrenKeepMeaning(p: Pred, ps: seq<Pred>, qs: seq<Pred>, perm: seq<nat>, inv: seq<nat>, o: Oracle)
    requires forall i :: 0 <= i < |ps| ==> ps[i] < p
    requires Rearranged(p, ps, qs, perm, inv)
    ensures Matched(ps, qs, inv, o)
    decreases p, 0
  {
    forall j | 0 <= j < |qs| ensures inv[j] < |ps| && SameMeaning(ps[inv[j]], qs[j], o) {
      assert perm[inv[j]] == j;
      assert Reorders(ps[inv[j]], qs[perm[inv[j]]]);
      ReordersKeepsMeaning(ps[inv[j]], qs[j], o);
    }
  }

  /** Each child of the rearranged list means what its origin means. */
  ghost predicate Matched(ps: seq<Pred>, qs: seq<Pred>, inv: seq<nat>, o: Oracle) {
    |ps| == |qs| == |inv| && forall j :: 0 <= j < |qs| ==> inv[j] < |ps| && SameMeaning(ps[inv[j]], qs[j], o)
  }

  lemma MatchedConjunction(ps: seq<Pred>, qs: seq<Pred>, perm: seq<nat>, inv: seq<nat>, o: Oracle)
    requires Bijection(perm, inv, |ps|) && Matched(ps, qs, inv, o)
    ensures Clean(All(ps), o) ==> Clean(All(qs), o)
    ensures Truth(All(ps), o) == Truth(All(qs), o)
  {
    forall i | 0 <= i < |ps| ensures perm[i] < |ps| && SameMeaning(ps[i], qs[perm[i]], o) {
      assert inv[perm[i]] == i;
    }
  }

  lemma MatchedDisjunction(ps: seq<Pred>, qs: seq<Pred>, perm: seq<nat>, inv: seq<nat>, o: Oracle)
    requires Bijection(perm, inv, |ps|) && Matched(ps, qs, inv, o)
    ensures Clean(Any(ps), o) ==> Clean(Any(qs), o)
    ensures Truth(Any(ps), o) == Truth(Any(qs), o)
  {
    if i :| 0 <= i < |ps| && Truth(ps[i], o) {
      assert inv[perm[i]] == i;
      assert SameMeaning(ps[inv[perm[i]]], qs[perm[i]], o);
    }
  }

  ghost predicate SameMeaning(p: Pred, q: Pred, o: Oracle) {
    (Clean(p, o) ==> Clean(q, o)) && Truth(p, o) == Truth(q, o)
  }

  lemma {:induction false} ReordersSelf(p: Pred)
    ensures Reorders(p, p)
    decreases p
  {
    match p {
      case Leaf(_) =>
      case Not(child) => ReordersSelf(child);
      case All(children) => var _ := RearrangedBy(p, children, children, 0);
      case Any(children) => var _ := RearrangedBy(p, children, children, 0);
    }
  }

  /** Exchanging the first child with the one at `k`, and reordering that one inside. */
  lemma RearrangedBy(p: Pred, ps: seq<Pred>, qs: seq<Pred>, k: nat) returns (perm: seq<nat>)
    requires forall i :: 0 <= i < |ps| ==> ps[i] < p
    requires ps == qs || (k < |ps| && |qs| == |ps| && Reorders(ps[k], qs[0]) && (k > 0 ==> qs[k] == ps[0])
                          && forall i :: 0 < i < |ps| && i != k ==> qs[i] == ps[i])
    ensures Rearranged(p, ps, qs, perm, perm)
    decreases p, 0
  {
    var n := |ps|;
    var swap := ps != qs;
    perm := seq(n, i requires 0 <= i < n => if swap && i == 0 then k else if swap && i == k then 0 else i);
    forall i | 0 <= i < n ensures Reorders(ps[i], qs[perm[i]]) {
      ReordersSelf(ps[i]);
    }
  }

  /** A tree with a faulty leaf has an order of its children in which the leaf is reached. */
  lemma {:induction false} ExposeFault(p: Pred, o: Oracle) returns (q: Pred)
    requires !Clean(p, o)
    ensures Reorders(p, q) && EvaluateAtom(q, o) == Failed
    decreases p
  {
    match p {
      case Leaf(_) =>
        q := p;
      case Not(child) =>
        var c := ExposeFault(child, o);
        q := Not(c);
      case All(children) =>
        var k :| 0 <= k < |children| && !Clean(children[k], o);
        var c := ExposeFault(children[k], o);
        var qs := children[k := children[0]][0 := c];
        var perm := RearrangedBy(p, children, qs, k);
        q := All(qs);
      case Any(children) =>
        var k :| 0 <= k < |children| && !Clean(children[k], o);
        var c := ExposeFault(children[k], o);
        var qs := children[k := children[0]][0 := c];
        var perm := RearrangedBy(p, children, qs, k);
        q := Any(qs);
    }
  }

  // ---------------------------------------------------------------- main results

  /**
    The eager evaluator reports no error exactly when the nesting is within its limit and the
    short-circuit evaluator succeeds under every reordering of children at every level.
   */
  lemma EagerSucceedsIffAllOrdersSucceed(p: Pred, o: Oracle)
    ensures NoError(EvalBoundary(p, o, 0)) <==>
              HeightAtMost(p, 10) && forall q :: Reorders(p, q) ==> EvaluateAtom(q, o).Ok?
  {
    EagerExact(p, o, 0);
    if Clean(p, o) {
      forall q | Reorders(p, q) ensures EvaluateAtom(q, o).Ok? {
        ReordersKeepsMeaning(p, q, o);
        ShortOnClean(q, o);
      }
    } else {
      var q := ExposeFault(p, o);
    }
  }

  /** When the eager evaluator reports no error, all orders give its truth value. */
  lemma AllOrdersAgree(p: Pred, q: Pred, o: Oracle)
    requires NoError(EvalBoundary(p, o, 0)) && Reorders(p, q)
    ensures EvaluateAtom(q, o) == Ok(EvalBoundary(p, o, 0).value)
  {
    EagerExact(p, o, 0);
    ReordersKeepsMeaning(p, q, o);
    ShortOnClean(q, o);
  }

  // ---------------------------------------------------------------- the short-circuit evaluator in its own order

  /** Child `k` is the first that does not evaluate to `b`. */
  ghost predicate FirstOther(ps: seq<Pred>, o: Oracle, b: bool, k: nat) {
    && k < |ps| && EvaluateAtom(ps[k], o) != Ok(b)
    && forall i :: 0 <= i < k ==> EvaluateAtom(ps[i], o) == Ok(b)
  }

  /** The first child that is not true gives the answer of "all"; without one it is true. */
  lemma {:induction false} AllIs(ps: seq<Pred>, o: Oracle)
    ensures EvaluateAtom(All(ps), o) == Ok(true) <==> forall i :: 0 <= i < |ps| ==> EvaluateAtom(ps[i], o) == Ok(true)
    ensures EvaluateAtom(All(ps), o) != Ok(true) <==> exists k: nat :: FirstOther(ps, o, true, k)
    ensures forall k: nat :: FirstOther(ps, o, true, k) ==> EvaluateAtom(All(ps), o) == EvaluateAtom(ps[k], o)
  {
    if ps != [] {
      var tail := ps[1..];
      assert ps == [ps[0]] + tail;
      AllIs(tail, o);
      if EvaluateAtom(ps[0], o) != Ok(true) {
        assert FirstOther(ps, o, true, 0);
      } else {
        FirstOtherOfTail(ps, o, true);
      }
    }
  }

  /** The first child that is not false gives the answer of "any"; without one it is false. */
  lemma {:induction false} AnyIs(ps: seq<Pred>, o: Oracle)
    ensures EvaluateAtom(Any(ps), o) == Ok(false) <==> forall i :: 0 <= i < |ps| ==> EvaluateAtom(ps[i], o) == Ok(false)
    ensures EvaluateAtom(Any(ps), o) != Ok(false) <==> exists k: nat :: FirstOther(ps, o, false, k)
    ensures forall k: nat :: FirstOther(ps, o, false, k) ==> EvaluateAtom(Any(ps), o) == EvaluateAtom(ps[k], o)
  {
    if ps != [] {
      var tail := ps[1..];
      assert ps == [ps[0]] + tail;
      AnyIs(tail, o);
      if EvaluateAtom(ps[0], o) != Ok(false) {
        assert FirstOther(ps, o, false, 0);
      } else {
        FirstOtherOfTail(ps, o, false);
      }
    }
  }

  lemma FirstOtherOfTail(ps: seq<Pred>, o: Oracle, b: bool)
    requires ps != [] && EvaluateAtom(ps[0], o) == Ok(b)
    ensures forall k: nat :: FirstOther(ps, o, b, k) ==> k > 0 && FirstOther(ps[1..], o, b, k - 1)
    ensures forall k: nat :: FirstOther(ps[1..], o, b, k) ==> FirstOther(ps, o, b, k + 1)
  {
    var tail := ps[1..];
    forall k: nat | FirstOther(ps, o, b, k) ensures k > 0 && FirstOther(tail, o, b, k - 1) {
      forall i | 0 <= i < k - 1 ensures EvaluateAtom(tail[i], o) == Ok(b) {
        assert tail[i] == ps[i + 1];
      }
    }
    forall k: nat | FirstOther(tail, o, b, k) ensures FirstOther(ps, o, b, k + 1) {
      forall i | 0 <= i < k + 1 ensures EvaluateAtom(ps[i], o) == Ok(b) {
        assert i > 0 ==> ps[i] == tail[i - 1];
      }
    }
  }

  /** The short-circuit evaluator, in its own order, comes to a fault before the value is settled. */
  ghost predicate MeetsFault(p: Pred, o: Oracle)
    decreases p
  {
    match p
    case Leaf(atom) => !o(atom).Value?
    case Not(child) => MeetsFault(child, o)
    case All(children) =>
      exists k :: 0 <= k < |children| && MeetsFault(children[k], o) && Settle(children, k, o, true)
    case Any(children) =>
      exists k :: 0 <= k < |children| && MeetsFault(children[k], o) && Settle(children, k, o, false)
  }

  /** The children before number `k` evaluate to `b`. */
  ghost predicate Settle(ps: seq<Pred>, k: nat, o: Oracle, b: bool)
    requires k <= |ps|
  {
    forall i :: 0 <= i < k ==> EvaluateAtom(ps[i], o) == Ok(b)
  }

  lemma {:induction false} FailsIff(p: Pred, o: Oracle)
    ensures EvaluateAtom(p, o) == Failed <==> MeetsFault(p, o)
    decreases p
  {
    match p {
      case Leaf(_) =>
      case Not(child) => FailsIff(child, o);
      case All(children) =>
        forall i | 0 <= i < |children| ensures EvaluateAtom(children[i], o) == Failed <==> MeetsFault(children[i], o) {
          FailsIff(children[i], o);
        }
        AllIs(children, o);
        ListFailsIff(p, children, o, true);
      case Any(children) =>
        forall i | 0 <= i < |children| ensures EvaluateAtom(children[i], o) == Failed <==> MeetsFault(children[i], o) {
          FailsIff(children[i], o);
        }
        AnyIs(children, o);
        ListFailsIff(p, children, o, false);
    }
  }

  lemma ListFailsIff(p: Pred, ps: seq<Pred>, o: Oracle, b: bool)
    requires p == if b then All(ps) else Any(ps)
    requires forall i :: 0 <= i < |ps| ==> (EvaluateAtom(ps[i], o) == Failed <==> MeetsFault(ps[i], o))
    requires EvaluateAtom(p, o) != Ok(b) <==> exists k: nat :: FirstOther(ps, o, b, k)
    requires forall k: nat :: FirstOther(ps, o, b, k) ==> EvaluateAtom(p, o) == EvaluateAtom(ps[k], o)
    ensures EvaluateAtom(p, o) == Failed <==> MeetsFault(p, o)
  {
    if EvaluateAtom(p, o) == Failed {
      var k: nat :| FirstOther(ps, o, b, k);
      assert MeetsFault(ps[k], o) && Settle(ps, k, o, b);
    }
    if MeetsFault(p, o) {
      var k: nat :| k < |ps| && MeetsFault(ps[k], o) && Settle(ps, k, o, b);
      assert FirstOther(ps, o, b, k);
    }
  }

  // ---------------------------------------------------------------- the eager evaluator on every tree

  /** Child `k` is the first with an error. */
  ghost predicate FirstFaulty(ps: seq<Pred>, o: Oracle, depth: nat, k: nat) {
    && k < |ps| && !NoError(EvalBoundary(ps[k], o, depth))
    && forall i :: 0 <= i < k ==> NoError(EvalBoundary(ps[i], o, depth))
  }

  lemma {:induction false} ChildrenAre(ps: seq<Pred>, o: Oracle, depth: nat)
    ensures var r := EvalChildren(ps, o, depth);
            && (r.None? <==> exists i :: 0 <= i < |ps| && EvalBoundary(ps[i], o, depth).Thrown?)
            && (r.Some? ==> forall i :: 0 <= i < |ps| ==>
                            EvalBoundary(ps[i], o, depth) == Done(r.value[i].0, r.value[i].1))
    decreases |ps|
  {
    if ps != [] {
      var tail := ps[1..];
      ChildrenAre(tail, o, depth);
      if i :| 0 <= i < |tail| && EvalBoundary(tail[i], o, depth).Thrown? {
        assert ps[i + 1] == tail[i];
      }
      if i :| 0 <= i < |ps| && EvalBoundary(ps[i], o, depth).Thrown? {
        assert i > 0 ==> ps[i] == tail[i - 1];
      }
      assert ps == [ps[0]] + tail;
    }
  }

  /** The error of the first that has one. */
  lemma {:induction false} FirstErrorIs(vals: seq<(bool, Option<string>)>)
    ensures FirstError(vals) == None <==> forall i :: 0 <= i < |vals| ==> vals[i].1 == None
    ensures forall k :: 0 <= k < |vals| && vals[k].1 != None && (forall i :: 0 <= i < k ==> vals[i].1 == None)
                        ==> FirstError(vals) == vals[k].1
  {
    if vals != [] {
      var tail := vals[1..];
      FirstErrorIs(tail);
      assert vals == [vals[0]] + tail;
      forall k | 0 <= k < |vals| && vals[k].1 != None && (forall i :: 0 <= i < k ==> vals[i].1 == None)
        ensures FirstError(vals) == vals[k].1
      {
        if k > 0 {
          assert tail[k - 1] == vals[k];
          forall i | 0 <= i < k - 1 ensures tail[i].1 == None {
            assert tail[i] == vals[i + 1];
          }
        }
      }
    }
  }

  lemma ErrorsAre(ps: seq<Pred>, o: Oracle, depth: nat, vals: seq<(bool, Option<string>)>)
    requires EvalChildren(ps, o, depth) == Some(vals)
    ensures FirstError(vals) == None <==> forall i :: 0 <= i < |ps| ==> NoError(EvalBoundary(ps[i], o, depth))
    ensures forall k: nat :: FirstFaulty(ps, o, depth, k) ==>
              EvalBoundary(ps[k], o, depth).Done? && FirstError(vals) == EvalBoundary(ps[k], o, depth).error
  {
    ChildrenAre(ps, o, depth);
    FirstErrorIs(vals);
    forall i | 0 <= i < |ps| ensures vals[i].1 == None <==> NoError(EvalBoundary(ps[i], o, depth)) {
      assert EvalBoundary(ps[i], o, depth) == Done(vals[i].0, vals[i].1);
    }
  }

  /** The answer on a list of children at this depth, but for its value. */
  ghost predicate ListAnswer(r: Eager, ps: seq<Pred>, o: Oracle, depth: nat) {
    && (r.Thrown? <==> exists i :: 0 <= i < |ps| && EvalBoundary(ps[i], o, depth).Thrown?)
    && (NoError(r) <==> forall i :: 0 <= i < |ps| ==> NoError(EvalBoundary(ps[i], o, depth)))
    && (r.Done? ==> forall k: nat :: FirstFaulty(ps, o, depth, k) ==>
          EvalBoundary(ps[k], o, depth).Done? && r.error == EvalBoundary(ps[k], o, depth).error)
  }

  lemma ListAnswerIs(r: Eager, ps: seq<Pred>, o: Oracle, depth: nat)
    requires match EvalChildren(ps, o, depth)
             case Some(vals) => r.Done? && r.error == FirstError(vals)
             case None => r == Thrown
    ensures ListAnswer(r, ps, o, depth)
  {
    ChildrenAre(ps, o, depth);
    match EvalChildren(ps, o, depth) {
      case Some(vals) => ErrorsAre(ps, o, depth, vals);
      case None =>
    }
  }

  /**
    The eager evaluator on "all", for every tree: an exception in any child is one of the whole, the value
    is the conjunction of all children's, and the error is that of the first child with one.
   */
  lemma EagerAllIs(ps: seq<Pred>, o: Oracle, depth: nat)
    requires depth <= 10
    ensures var r := EvalBoundary(All(ps), o, depth);
            && ListAnswer(r, ps, o, depth + 1)
            && (r.Done? ==> (r.value <==> forall i :: 0 <= i < |ps| ==> EvalBoundary(ps[i], o, depth + 1).value))
  {
    ListAnswerIs(EvalBoundary(All(ps), o, depth), ps, o, depth + 1);
    ChildrenAre(ps, o, depth + 1);
  }

  /** The same for "any", with the disjunction. */
  lemma EagerAnyIs(ps: seq<Pred>, o: Oracle, depth: nat)
    requires depth <= 10
    ensures var r := EvalBoundary(Any(ps), o, depth);
            && ListAnswer(r, ps, o, depth + 1)
            && (r.Done? ==> (r.value <==> exists i :: 0 <= i < |ps| && EvalBoundary(ps[i], o, depth + 1).value))
  {
    ListAnswerIs(EvalBoundary(Any(ps), o, depth), ps, o, depth + 1);
    ChildrenAre(ps, o, depth + 1);
  }

  /** The other cases: below depth 10 the answer is the error "depth", and "not" turns the value but keeps the error. */
  lemma EagerCases(p: Pred, o: Oracle, depth: nat)
    ensures depth > 10 ==> EvalBoundary(p, o, depth) == Done(false, Some("depth"))
    ensures depth <= 10 && p.Leaf? ==>
              match o(p.atom)
              case Value(b) => EvalBoundary(p, o, depth) == Done(b, None)
              case Fault(code) => EvalBoundary(p, o, depth) == Done(false, Some(code))
              case Throws => EvalBoundary(p, o, depth) == Thrown
    ensures depth <= 10 && p.Not? ==>
              match EvalBoundary(p.child, o, depth + 1)
              case Done(b, e) => EvalBoundary(p, o, depth) == Done(!b, e)
              case Thrown => EvalBoundary(p, o, depth) == Thrown
  {
  }

  /** Both report a failure, or both succeed with one value. */
  ghost predicate SameAnswer(p: Pred, o: Oracle) {
    if NoError(EvalBoundary(p, o, 0)) then EvaluateAtom(p, o) == Ok(EvalBoundary(p, o, 0).value)
    else EvaluateAtom(p, o) == Failed
  }

  /**
    In its own order the short-circuit evaluator gives the eager answer exactly when it meets a fault, or
    when no leaf faults and the nesting is within the limit.
   */
  lemma OwnOrderAgreesIff(p: Pred, o: Oracle)
    ensures SameAnswer(p, o) <==> MeetsFault(p, o) || (Clean(p, o) && HeightAtMost(p, 10))
  {
    FailsIff(p, o);
    EagerExact(p, o, 0);
    if Clean(p, o) {
      ShortOnClean(p, o);
    }
  }

  /** In its own order the short-circuit evaluator may succeed where the eager one reports an error. */
  lemma ShortCircuitHidesFaults()
    ensures exists p, o: Oracle ::
      EvaluateAtom(p, o) == Ok(false) && !NoError(EvalBoundary(p, o, 0)) && HeightAtMost(p, 10)
  {
    var no, bad := Leaf("no"), Leaf("bad");
    var p := All([no, bad]);
    var o: Oracle := (atom: string) => if atom == "no" then Value(false) else Fault("not-defined");
    assert [no, bad][0] == no && [no, bad][1] == bad;
    assert "no" != "bad";
    assert EvalAll([no, bad], o) == Ok(false);
    assert !Clean(bad, o);
    assert !Clean(p, o);
    EagerExact(p, o, 0);
    assert forall i :: 0 <= i < 2 ==> HeightAtMost(p.children[i], 9);
    assert EvaluateAtom(p, o) == Ok(false) && !NoError(EvalBoundary(p, o, 0)) && HeightAtMost(p, 10);
  }
}
