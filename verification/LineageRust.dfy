/**
  The command-line tool's lineage resolution: a loop that follows first parents.
 */
module LineageRust {
  import opened Utf8
  import opened Canonical

  /** The `parents` field of a bundle; an element that is not a string is `None`. */
  datatype Parents = Missing | NotAnArray | List(refs: seq<Option<string>>)

  datatype JsonBundle = JsonBundle(id: Option<string>, parents: Parents, body: string)

  datatype LineageError = CycleDetected(id: string) | MaxDepthExceeded(len: nat) | ParentNotFound(id: string)
      | InvalidReference(why: string)

  type Resolver = string -> Result<JsonBundle, LineageError>

  function IdsOf(c: seq<JsonBundle>): set<string> {
    set b | b in c && b.id.Some? :: b.id.value
  }

  /** The loop from a given state on. */
  function Resume(chain: seq<JsonBundle>, visited: set<string>, resolver: Resolver,
                  maxDepth: nat): Result<seq<JsonBundle>, LineageError>
    requires chain != []
    decreases maxDepth - |chain|
  {
    if |chain| >= maxDepth then Err(MaxDepthExceeded(|chain|)) else
    match chain[|chain| - 1].parents
    case NotAnArray => Err(InvalidReference("parents must be an array"))
    case Missing => Ok(chain)
    case List(refs) =>
      if refs == [] then Ok(chain)
      else if refs[0].None? then Err(InvalidReference("parent must be a string reference"))
      else if refs[0].value in visited then Err(CycleDetected(refs[0].value))
      else
        match resolver(refs[0].value)
        case Err(e) => Err(e)
        case Ok(parent) =>
          if parent.id.Some? && parent.id.value in visited then Err(CycleDetected(parent.id.value))
          else Resume(chain + [parent], visited + (if parent.id.Some? then {parent.id.value} else {}), resolver,
                      maxDepth)
  }

  function Resolve(leaf: JsonBundle, resolver: Resolver, maxDepth: nat): Result<seq<JsonBundle>, LineageError> {
    Resume([leaf], IdsOf([leaf]), resolver, maxDepth)
  }

  class LineageChain {
    var chain: seq<JsonBundle>
    var visited: set<string>

    constructor (leaf: JsonBundle)
      ensures chain == [leaf] && visited == IdsOf([leaf])
    {
      visited := if leaf.id.Some? then {leaf.id.value} else {};
      chain := [leaf];
      new;
      assert [leaf][0] == leaf;
    }

    method Push(parent: JsonBundle)
      modifies this
      ensures chain == old(chain) + [parent]
      ensures visited == old(visited) + (if parent.id.Some? then {parent.id.value} else {})
    {
      if parent.id.Some? {
        visited := visited + {parent.id.value};
      }
      chain := chain + [parent];
    }
  }

  method ResolveLineage(leaf: JsonBundle, resolver: Resolver, maxDepth: nat)
      returns (r: Result<LineageChain, LineageError>)
    ensures match Resolve(leaf, resolver, maxDepth)
            case Ok(c) => r.Ok? && fresh(r.value) && r.value.chain == c && r.value.visited == IdsOf(c)
            case Err(e) => r == Err(e)
  {
    var chain := new LineageChain(leaf);
    while true
      invariant fresh(chain) && chain.chain != [] && chain.visited == IdsOf(chain.chain)
      invariant Resume(chain.chain, chain.visited, resolver, maxDepth) == Resolve(leaf, resolver, maxDepth)
      decreases maxDepth - |chain.chain|
    {
      if |chain.chain| >= maxDepth {
        return Err(MaxDepthExceeded(|chain.chain|));
      }
      var current := chain.chain[|chain.chain| - 1];
      if current.parents.NotAnArray? {
        return Err(InvalidReference("parents must be an array"));
      }
      if current.parents.Missing? || current.parents.refs == [] {
        return Ok(chain);
      }
      var first := current.parents.refs[0];
      if first.None? {
        return Err(InvalidReference("parent must be a string reference"));
      }
      if first.value in chain.visited {
        return Err(CycleDetected(first.value));
      }
      var resolved := resolver(first.value);
      if resolved.Err? {
        return Err(resolved.error);
      }
      if resolved.value.id.Some? && resolved.value.id.value in chain.visited {
        return Err(CycleDetected(resolved.value.id.value));
      }
      IdsOfPush(chain.chain, resolved.value);
      chain.Push(resolved.value);
    }
  }

  lemma IdsOfPush(c: seq<JsonBundle>, b: JsonBundle)
    ensures IdsOf(c + [b]) == IdsOf(c) + (if b.id.Some? then {b.id.value} else {})
  {
    assert forall x :: x in c + [b] <==> x in c || x == b;
  }

  // ---------------------------------------------------------------- what a resolved chain is

  predicate IsRoot(b: JsonBundle) {
    b.parents.Missing? || (b.parents.List? && b.parents.refs == [])
  }

  /** `next` is what the resolver returns for the first parent of the end of `before`, and neither name is on it. */
  ghost predicate Follows(before: seq<JsonBundle>, next: JsonBundle, resolver: Resolver)
    requires before != []
  {
    var b := before[|before| - 1];
    && b.parents.List? && b.parents.refs != [] && b.parents.refs[0].Some?
    && b.parents.refs[0].value !in IdsOf(before)
    && resolver(b.parents.refs[0].value) == Ok(next)
    && (next.id.Some? ==> next.id.value !in IdsOf(before))
  }

  /** A first-parent chain from the leaf to a bundle without parents, shorter than the limit. */
  ghost predicate IsChain(leaf: JsonBundle, resolver: Resolver, maxDepth: nat, c: seq<JsonBundle>) {
    && c != [] && c[0] == leaf && |c| < maxDepth
    && IsRoot(c[|c| - 1])
    && forall i :: 1 <= i < |c| ==> Follows(c[..i], c[i], resolver)
  }

  /** A chain that starts with `chain` either is it or continues it with the next resolved bundle. */
  lemma ChainStep(leaf: JsonBundle, chain: seq<JsonBundle>, resolver: Resolver, maxDepth: nat, c: seq<JsonBundle>)
    requires chain != [] && IsChain(leaf, resolver, maxDepth, c) && chain <= c
    ensures |chain| < maxDepth
    ensures if IsRoot(chain[|chain| - 1]) then c == chain
            else |c| > |chain| && Follows(chain, c[|chain|], resolver) && chain + [c[|chain|]] <= c
  {
    var n := |chain|;
    assert chain == c[..n];
    if |c| > n {
      assert Follows(c[..n], c[n], resolver);
      assert chain + [c[n]] == c[..n + 1];
    }
  }

  ghost predicate Linked(chain: seq<JsonBundle>, resolver: Resolver) {
    forall i :: 1 <= i < |chain| ==> Follows(chain[..i], chain[i], resolver)
  }

  lemma LinkedPush(chain: seq<JsonBundle>, next: JsonBundle, resolver: Resolver)
    requires chain != [] && Linked(chain, resolver) && Follows(chain, next, resolver)
    ensures Linked(chain + [next], resolver)
  {
    var longer := chain + [next];
    forall i | 1 <= i < |longer| ensures Follows(longer[..i], longer[i], resolver) {
      assert longer[..i] == chain[..i];
    }
  }

  lemma {:induction false} ResumeSound(leaf: JsonBundle, chain: seq<JsonBundle>, resolver: Resolver, maxDepth: nat)
    requires chain != [] && chain[0] == leaf && Linked(chain, resolver)
    requires Resume(chain, IdsOf(chain), resolver, maxDepth).Ok?
    ensures IsChain(leaf, resolver, maxDepth, Resume(chain, IdsOf(chain), resolver, maxDepth).value)
    decreases maxDepth - |chain|
  {
    var b := chain[|chain| - 1];
    if !IsRoot(b) {
      var next := resolver(b.parents.refs[0].value).value;
      assert Follows(chain, next, resolver);
      LinkedPush(chain, next, resolver);
      IdsOfPush(chain, next);
      ResumeSound(leaf, chain + [next], resolver, maxDepth);
    }
  }

  lemma {:induction false} ResumeComplete(leaf: JsonBundle, chain: seq<JsonBundle>, resolver: Resolver, maxDepth: nat,
                                          c: seq<JsonBundle>)
    requires chain != [] && IsChain(leaf, resolver, maxDepth, c) && chain <= c
    ensures Resume(chain, IdsOf(chain), resolver, maxDepth) == Ok(c)
    decreases maxDepth - |chain|
  {
    ChainStep(leaf, chain, resolver, maxDepth, c);
    if !IsRoot(chain[|chain| - 1]) {
      IdsOfPush(chain, c[|chain|]);
      ResumeComplete(leaf, chain + [c[|chain|]], resolver, maxDepth, c);
    }
  }

  /** Resolution succeeds exactly when there is such a chain, and then it returns the only one. */
  lemma ResolveExact(leaf: JsonBundle, resolver: Resolver, maxDepth: nat)
    ensures Resolve(leaf, resolver, maxDepth).Ok? <==> exists c :: IsChain(leaf, resolver, maxDepth, c)
    ensures forall c :: IsChain(leaf, resolver, maxDepth, c) <==> Resolve(leaf, resolver, maxDepth) == Ok(c)
  {
    if Resolve(leaf, resolver, maxDepth).Ok? {
      ResumeSound(leaf, [leaf], resolver, maxDepth);
    }
    forall c | IsChain(leaf, resolver, maxDepth, c) ensures Resolve(leaf, resolver, maxDepth) == Ok(c) {
      assert [leaf] <= c;
      ResumeComplete(leaf, [leaf], resolver, maxDepth, c);
    }
  }

  // ---------------------------------------------------------------- why resolution stops

  /** The chain so far cannot be continued, and this is why. */
  ghost predicate StopsWith(c: seq<JsonBundle>, resolver: Resolver, maxDepth: nat, e: LineageError)
    requires c != []
  {
    var parents := c[|c| - 1].parents;
    if |c| >= maxDepth then e == MaxDepthExceeded(|c|)
    else
      || (parents.NotAnArray? && e == InvalidReference("parents must be an array"))
      || (parents.List? && |parents.refs| > 0 && parents.refs[0].None?
          && e == InvalidReference("parent must be a string reference"))
      || (parents.List? && |parents.refs| > 0 && parents.refs[0].Some?
          && var r := parents.refs[0].value;
             if r in IdsOf(c) then e == CycleDetected(r)
             else
               || resolver(r) == Err(e)
               || (resolver(r).Ok? && resolver(r).value.id.Some? && resolver(r).value.id.value in IdsOf(c)
                   && e == CycleDetected(resolver(r).value.id.value)))
  }

  /** A chain from the leaf, with room for each of its bundles, that stops with this error. */
  ghost predicate StopsAt(leaf: JsonBundle, resolver: Resolver, maxDepth: nat, c: seq<JsonBundle>, e: LineageError) {
    && c != [] && c[0] == leaf && (|c| == 1 || |c| <= maxDepth) && Linked(c, resolver)
    && StopsWith(c, resolver, maxDepth, e)
  }

  /** Resolution fails with an error exactly when the chain of first parents comes to a bundle that stops it so. */
  lemma ResolveErrorIff(leaf: JsonBundle, resolver: Resolver, maxDepth: nat, e: LineageError)
    ensures Resolve(leaf, resolver, maxDepth) == Err(e) <==> exists c :: StopsAt(leaf, resolver, maxDepth, c, e)
  {
    if Resolve(leaf, resolver, maxDepth) == Err(e) {
      var c := ResumeStops(leaf, [leaf], resolver, maxDepth);
    }
    if c :| StopsAt(leaf, resolver, maxDepth, c, e) {
      StoppedResumes(leaf, [leaf], resolver, maxDepth, c, e);
    }
  }

  lemma {:induction false} ResumeStops(leaf: JsonBundle, chain: seq<JsonBundle>, resolver: Resolver, maxDepth: nat)
      returns (c: seq<JsonBundle>)
    requires chain != [] && chain[0] == leaf && Linked(chain, resolver) && (|chain| == 1 || |chain| <= maxDepth)
    requires Resume(chain, IdsOf(chain), resolver, maxDepth).Err?
    ensures StopsAt(leaf, resolver, maxDepth, c, Resume(chain, IdsOf(chain), resolver, maxDepth).error)
    decreases maxDepth - |chain|
  {
    c := chain;
    if !StopsWith(chain, resolver, maxDepth, Resume(chain, IdsOf(chain), resolver, maxDepth).error) {
      var next := resolver(chain[|chain| - 1].parents.refs[0].value).value;
      assert Follows(chain, next, resolver);
      LinkedPush(chain, next, resolver);
      IdsOfPush(chain, next);
      c := ResumeStops(leaf, chain + [next], resolver, maxDepth);
    }
  }

  lemma {:induction false} StoppedResumes(leaf: JsonBundle, chain: seq<JsonBundle>, resolver: Resolver, maxDepth: nat,
                                          c: seq<JsonBundle>, e: LineageError)
    requires chain != [] && chain <= c && StopsAt(leaf, resolver, maxDepth, c, e)
    ensures Resume(chain, IdsOf(chain), resolver, maxDepth) == Err(e)
    decreases |c| - |chain|
  {
    if |chain| == |c| {
      assert chain == c;
    } else {
      var n := |chain|;
      assert chain == c[..n] && Follows(c[..n], c[n], resolver);
      assert chain + [c[n]] == c[..n + 1];
      IdsOfPush(chain, c[n]);
      StoppedResumes(leaf, chain + [c[n]], resolver, maxDepth, c, e);
    }
  }

  // ---------------------------------------------------------------- validation

  /** The name by which validation knows a bundle. */
  function NameOf(b: JsonBundle): string {
    if b.id.Some? then b.id.value else ""
  }

  /** The child at position `i` names the id of the next bundle, or the empty string when that has none. */
  predicate Names(c: seq<JsonBundle>, i: nat)
    requires i + 1 < |c|
  {
    c[i].parents.List? && Some(NameOf(c[i + 1])) in c[i].parents.refs
  }

  /** `validate_lineage` accepts the chain. */
  ghost predicate Validates(c: seq<JsonBundle>) {
    c != [] && forall i :: 0 <= i < |c| - 1 ==> Names(c, i)
  }

  method ValidateLineage(c: seq<JsonBundle>) returns (ok: bool)
    ensures ok <==> Validates(c)
  {
    if c == [] {
      return false;
    }
    for i := 0 to |c| - 1
      invariant forall j :: 0 <= j < i ==> Names(c, j)
    {
      if !Names(c, i) {
        return false;
      }
    }
    return true;
  }

  /** One of the parents of the bundle is the id of the next one, or "" when that has none. */
  ghost predicate CitesNext(c: seq<JsonBundle>, i: nat)
    requires i + 1 < |c|
  {
    c[i].parents.List? && exists j :: 0 <= j < |c[i].parents.refs| && c[i].parents.refs[j].Some? &&
                                      (c[i].parents.refs[j] == c[i + 1].id
                                       || (c[i + 1].id == None && c[i].parents.refs[j] == Some("")))
  }

  /** Accepted are the chains in which every bundle but the last cites the next one, in any of its parents. */
  lemma ValidatesIff(c: seq<JsonBundle>)
    ensures Validates(c) <==> |c| > 0 && forall i :: 0 <= i < |c| - 1 ==> CitesNext(c, i)
  {
    forall i: nat | i + 1 < |c| ensures Names(c, i) <==> CitesNext(c, i) {
      if Names(c, i) {
        var j :| 0 <= j < |c[i].parents.refs| && c[i].parents.refs[j] == Some(NameOf(c[i + 1]));
      }
    }
  }

  /** A resolved chain has fewer than `maxDepth` bundles, distinct ids and a last bundle without parents. */
  lemma ResolvedIsWellFormed(leaf: JsonBundle, resolver: Resolver, maxDepth: nat)
    requires Resolve(leaf, resolver, maxDepth).Ok?
    ensures var c := Resolve(leaf, resolver, maxDepth).value;
            && 0 < |c| < maxDepth && c[0] == leaf && IsRoot(c[|c| - 1])
            && forall i, j :: 0 <= i < j < |c| && c[i].id.Some? ==> c[i].id != c[j].id
  {
    ResolveExact(leaf, resolver, maxDepth);
    var c := Resolve(leaf, resolver, maxDepth).value;
    forall i, j | 0 <= i < j < |c| && c[i].id.Some? ensures c[i].id != c[j].id {
      assert Follows(c[..j], c[j], resolver);
      assert c[..j][i] == c[i] && c[i] in c[..j];
    }
  }

  /** Every bundle that the resolver answers with, and that resolves itself, has the name it was asked for. */
  ghost predicate NamesWhatItResolves(resolver: Resolver) {
    forall r :: resolver(r).Ok? && Resolvable(resolver(r).value, resolver) ==> NameOf(resolver(r).value) == r
  }

  ghost predicate Resolvable(b: JsonBundle, resolver: Resolver) {
    exists maxDepth :: Resolve(b, resolver, maxDepth).Ok?
  }

  /** The rest of a chain is a chain. */
  lemma ChainSuffix(leaf: JsonBundle, resolver: Resolver, maxDepth: nat, c: seq<JsonBundle>, n: nat)
    requires IsChain(leaf, resolver, maxDepth, c) && n < |c|
    ensures IsChain(c[n], resolver, maxDepth, c[n..])
  {
    var d := c[n..];
    forall i | 1 <= i < |d| ensures Follows(d[..i], d[i], resolver) {
      assert Follows(c[..n + i], c[n + i], resolver);
      assert c[..n + i] == c[..n] + d[..i];
      FollowsFewer(c[..n], d[..i], d[i], resolver);
    }
  }

  /** With fewer bundles before it, a bundle still follows. */
  lemma FollowsFewer(a: seq<JsonBundle>, b: seq<JsonBundle>, next: JsonBundle, resolver: Resolver)
    requires b != [] && Follows(a + b, next, resolver)
    ensures Follows(b, next, resolver)
  {
    assert IdsOf(b) <= IdsOf(a + b);
    assert (a + b)[|a + b| - 1] == b[|b| - 1];
  }

  /** A nameless leaf in front of a chain, citing the name under which its start resolves, makes a chain. */
  lemma ChainPrefix(leaf: JsonBundle, resolver: Resolver, maxDepth: nat, c: seq<JsonBundle>, r: string)
    requires leaf.id.None? && leaf.parents == List([Some(r)]) && resolver(r).Ok?
    requires IsChain(resolver(r).value, resolver, maxDepth, c)
    ensures IsChain(leaf, resolver, maxDepth + 1, [leaf] + c)
  {
    var d := [leaf] + c;
    forall i | 1 <= i < |d| ensures Follows(d[..i], d[i], resolver) {
      if i == 1 {
        assert d[..1] == [leaf] && IdsOf([leaf]) == {};
      } else {
        assert Follows(c[..i - 1], c[i - 1], resolver);
        assert d[..i] == [leaf] + c[..i - 1];
        assert IdsOf(d[..i]) == IdsOf(c[..i - 1]);
      }
    }
  }

  lemma ChainNames(leaf: JsonBundle, resolver: Resolver, maxDepth: nat, c: seq<JsonBundle>, i: nat)
    requires NamesWhatItResolves(resolver) && IsChain(leaf, resolver, maxDepth, c) && i + 1 < |c|
    ensures Names(c, i)
  {
    RestResolves(leaf, resolver, maxDepth, c, i + 1);
    LinkNames(c, i, resolver);
  }

  lemma LinkNames(c: seq<JsonBundle>, i: nat, resolver: Resolver)
    requires NamesWhatItResolves(resolver) && i + 1 < |c|
    requires Follows(c[..i + 1], c[i + 1], resolver) && Resolvable(c[i + 1], resolver)
    ensures Names(c, i)
  {
    FollowsAt(c, i, resolver);
  }

  lemma FollowsAt(c: seq<JsonBundle>, i: nat, resolver: Resolver)
    requires i + 1 < |c| && Follows(c[..i + 1], c[i + 1], resolver)
    ensures c[i].parents.List? && c[i].parents.refs != [] && c[i].parents.refs[0].Some?
    ensures resolver(c[i].parents.refs[0].value) == Ok(c[i + 1])
    ensures NameOf(c[i + 1]) == c[i].parents.refs[0].value ==> Names(c, i)
  {
    assert c[..i + 1][i] == c[i];
    assert c[i].parents.refs[0] in c[i].parents.refs;
  }

  lemma RestResolves(leaf: JsonBundle, resolver: Resolver, maxDepth: nat, c: seq<JsonBundle>, n: nat)
    requires IsChain(leaf, resolver, maxDepth, c) && 1 <= n < |c|
    ensures Follows(c[..n], c[n], resolver) && Resolvable(c[n], resolver)
  {
    ChainSuffix(leaf, resolver, maxDepth, c, n);
    ResolveExact(c[n], resolver, maxDepth);
  }

  /**
    Every resolved chain validates, for every leaf and limit, exactly when each bundle that the resolver
    answers with, and that resolves itself, carries the name it was asked for.
   */
  lemma ResolvedValidatesIff(resolver: Resolver)
    ensures (forall leaf, maxDepth :: Resolve(leaf, resolver, maxDepth).Ok? ==>
               Validates(Resolve(leaf, resolver, maxDepth).value))
            <==> NamesWhatItResolves(resolver)
  {
    if NamesWhatItResolves(resolver) {
      forall leaf, maxDepth | Resolve(leaf, resolver, maxDepth).Ok?
        ensures Validates(Resolve(leaf, resolver, maxDepth).value) {
        ResolvedValidates(leaf, resolver, maxDepth);
      }
    } else {
      var r :| resolver(r).Ok? && Resolvable(resolver(r).value, resolver) && NameOf(resolver(r).value) != r;
      var maxDepth :| Resolve(resolver(r).value, resolver, maxDepth).Ok?;
      var _ := Misnamed(resolver, r, maxDepth);
    }
  }

  /** With such a resolver, what is resolved also validates. */
  lemma ResolvedValidates(leaf: JsonBundle, resolver: Resolver, maxDepth: nat)
    requires NamesWhatItResolves(resolver) && Resolve(leaf, resolver, maxDepth).Ok?
    ensures Validates(Resolve(leaf, resolver, maxDepth).value)
  {
    ResolveExact(leaf, resolver, maxDepth);
    var c := Resolve(leaf, resolver, maxDepth).value;
    forall i | 0 <= i < |c| - 1 ensures Names(c, i) {
      ChainNames(leaf, resolver, maxDepth, c, i);
    }
  }

  /** A misnamed answer shows in the chain of a leaf that cites it. */
  lemma Misnamed(resolver: Resolver, r: string, maxDepth: nat) returns (leaf: JsonBundle)
    requires resolver(r).Ok? && Resolve(resolver(r).value, resolver, maxDepth).Ok? && NameOf(resolver(r).value) != r
    ensures Resolve(leaf, resolver, maxDepth + 1).Ok? && !Validates(Resolve(leaf, resolver, maxDepth + 1).value)
  {
    leaf := JsonBundle(None, List([Some(r)]), "");
    var b := resolver(r).value;
    ResolveExact(b, resolver, maxDepth);
    var c := Resolve(b, resolver, maxDepth).value;
    ChainPrefix(leaf, resolver, maxDepth, c, r);
    ResolveExact(leaf, resolver, maxDepth + 1);
    assert ([leaf] + c)[1] == b && !Names([leaf] + c, 0);
  }

  /** A resolver that answers with a nameless bundle resolves but does not validate. */
  lemma NamelessParentFailsValidation()
    ensures exists leaf, resolver: Resolver, maxDepth: nat ::
      Resolve(leaf, resolver, maxDepth).Ok? && !Validates(Resolve(leaf, resolver, maxDepth).value)
  {
    var top := JsonBundle(None, Missing, "");
    var resolver: Resolver := (id: string) => Ok(top);
    assert Resolve(top, resolver, 10) == Ok([top]);
    var leaf := Misnamed(resolver, "p", 10);
  }
}
