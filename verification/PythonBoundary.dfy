/**
  Python's boundary handling: the pre-validation of atom names before signature checking, the
  recursive evaluator, and the special loop for a top-level "all".
 */
module PythonBoundary {
  import opened Utf8

  /** A boundary as parsed JSON; entries keep dictionary order. */
  datatype Json = Dict(entries: seq<(string, Json)>) | List(items: seq<Json>) | Other(lexeme: string)

  const FIELD_ATOMS: set<string> := {"equals", "in", "present", "range", "before", "after", "within", "expired",
                                     "not_expired", "age_lt", "age_gt", "within_last", "within_next"}
  const LOGICAL_ATOMS: set<string> := {"all", "any", "not"}

  /** A field atom's result; `None` is a `BoundaryError`. */
  type FieldOracle = (string, Json) -> Option<bool>

  datatype Evaluated = Ok(b: bool) | Malformed | UnknownAtom(op: string)
  {
    predicate Failed() {
      !Ok?
    }
  }

  // ---------------------------------------------------------------- evaluation

  function EvaluateAtom(a: Json, o: FieldOracle): Evaluated
    decreases a, 1, 0
  {
    if !a.Dict? || |a.entries| != 1 then Malformed
    else
      var (op, operand) := a.entries[0];
      if op in FIELD_ATOMS then
        match o(op, operand) case Some(b) => Ok(b) case None => Malformed
      else if op == "all" then if operand.List? then EvaluateAll(operand.items, o) else Malformed
      else if op == "any" then if operand.List? then EvaluateAny(operand.items, o) else Malformed
      else if op == "not" then
        if !operand.List? then Malformed
        else if operand.items == [] then Ok(true)
        else match EvaluateAtom(operand.items[0], o) case Ok(b) => Ok(!b) case e => e
      else UnknownAtom(op)
  }

  /** `all(...)` over a generator: stops at the first false or raised error. */
  function EvaluateAll(items: seq<Json>, o: FieldOracle): Evaluated
    decreases items, 0, |items|
  {
    if items == [] then Ok(true) else
    match EvaluateAtom(items[0], o)
    case Ok(b) => if b then EvaluateAll(items[1..], o) else Ok(false)
    case e => e
  }

  function EvaluateAny(items: seq<Json>, o: FieldOracle): Evaluated
    decreases items, 0, |items|
  {
    if items == [] then Ok(false) else
    match EvaluateAtom(items[0], o)
    case Ok(b) => if b then Ok(true) else EvaluateAny(items[1..], o)
    case e => e
  }

  datatype Verdict = Pass | Fail | Indeterminate

  function VerdictOf(e: Evaluated): Verdict {
    match e
    case Ok(b) => if b then Pass else Fail
    case _ => Indeterminate
  }

  /** `boundary["all"]`. */
  function Member(entries: seq<(string, Json)>, k: string): Option<Json> {
    if entries == [] then None else if entries[0].0 == k then Some(entries[0].1) else Member(entries[1..], k)
  }

  /** The answer of `evaluate_boundary` on a boundary that is not null. */
  function BoundaryVerdict(a: Json, o: FieldOracle): Verdict {
    if !a.Dict? then Indeterminate
    else match Member(a.entries, "all")
      case Some(atoms) => if atoms.List? then VerdictOf(EvaluateAll(atoms.items, o)) else Indeterminate
      case None => VerdictOf(EvaluateAtom(a, o))
  }

  /** `evaluate_boundary` with its loop over the atoms of a top-level "all". */
  method EvaluateBoundary(a: Json, o: FieldOracle) returns (v: Verdict)
    ensures v == BoundaryVerdict(a, o)
  {
    if !a.Dict? {
      return Indeterminate;
    }
    var all := Member(a.entries, "all");
    if all.None? {
      return VerdictOf(EvaluateAtom(a, o));
    }
    if !all.value.List? {
      return Indeterminate;
    }
    var atoms := all.value.items;
    assert atoms[0..] == atoms;
    for i := 0 to |atoms|
      invariant VerdictOf(EvaluateAll(atoms[i..], o)) == BoundaryVerdict(a, o)
    {
      assert atoms[i..][0] == atoms[i] && atoms[i..][1..] == atoms[i + 1..];
      match EvaluateAtom(atoms[i], o) {
        case Ok(b) => if !b { return Fail; }
        case _ => return Indeterminate;
      }
    }
    return Pass;
  }

  // ---------------------------------------------------------------- the value of an atom

  /** Item `k` is the first that does not evaluate to `b`. */
  ghost predicate FirstOther(items: seq<Json>, o: FieldOracle, b: bool, k: nat) {
    && k < |items| && EvaluateAtom(items[k], o) != Ok(b)
    && forall i :: 0 <= i < k ==> EvaluateAtom(items[i], o) == Ok(b)
  }

  /** The first item that is not true gives the value of "all"; without one it is true. */
  lemma {:induction false} AllIs(items: seq<Json>, o: FieldOracle)
    ensures EvaluateAll(items, o) == Ok(true)
            <==> forall i :: 0 <= i < |items| ==> EvaluateAtom(items[i], o) == Ok(true)
    ensures EvaluateAll(items, o) != Ok(true) <==> exists k: nat :: FirstOther(items, o, true, k)
    ensures forall k: nat :: FirstOther(items, o, true, k) ==> EvaluateAll(items, o) == EvaluateAtom(items[k], o)
  {
    if items != [] {
      var tail := items[1..];
      assert items == [items[0]] + tail;
      AllIs(tail, o);
      if EvaluateAtom(items[0], o) != Ok(true) {
        assert FirstOther(items, o, true, 0);
      } else {
        FirstOtherOfTail(items, o, true);
      }
    }
  }

  /** The first item that is not false gives the value of "any"; without one it is false. */
  lemma {:induction false} AnyIs(items: seq<Json>, o: FieldOracle)
    ensures EvaluateAny(items, o) == Ok(false)
            <==> forall i :: 0 <= i < |items| ==> EvaluateAtom(items[i], o) == Ok(false)
    ensures EvaluateAny(items, o) != Ok(false) <==> exists k: nat :: FirstOther(items, o, false, k)
    ensures forall k: nat :: FirstOther(items, o, false, k) ==> EvaluateAny(items, o) == EvaluateAtom(items[k], o)
  {
    if items != [] {
      var tail := items[1..];
      assert items == [items[0]] + tail;
      AnyIs(tail, o);
      if EvaluateAtom(items[0], o) != Ok(false) {
        assert FirstOther(items, o, false, 0);
      } else {
        FirstOtherOfTail(items, o, false);
      }
    }
  }

  lemma FirstOtherOfTail(items: seq<Json>, o: FieldOracle, b: bool)
    requires items != [] && EvaluateAtom(items[0], o) == Ok(b)
    ensures forall k: nat :: FirstOther(items, o, b, k) ==> k > 0 && FirstOther(items[1..], o, b, k - 1)
    ensures forall k: nat :: FirstOther(items[1..], o, b, k) ==> FirstOther(items, o, b, k + 1)
  {
    var tail := items[1..];
    forall k: nat | FirstOther(items, o, b, k) ensures k > 0 && FirstOther(tail, o, b, k - 1) {
      forall i | 0 <= i < k - 1 ensures EvaluateAtom(tail[i], o) == Ok(b) {
        assert tail[i] == items[i + 1];
      }
    }
    forall k: nat | FirstOther(tail, o, b, k) ensures FirstOther(items, o, b, k + 1) {
      forall i | 0 <= i < k + 1 ensures EvaluateAtom(items[i], o) == Ok(b) {
        assert i > 0 ==> items[i] == tail[i - 1];
      }
    }
  }

  /** What a dictionary with the single key `op` evaluates to, for each operator by name. */
  lemma AtomIs(op: string, operand: Json, o: FieldOracle)
    ensures var r := EvaluateAtom(Dict([(op, operand)]), o);
            && (op in {"equals", "in", "present", "range", "before", "after", "within", "expired", "not_expired",
                       "age_lt", "age_gt", "within_last", "within_next"}
                ==> && (forall b :: r == Ok(b) <==> o(op, operand) == Some(b))
                    && (o(op, operand) == None ==> r == Malformed))
            && (op in {"all", "any", "not"} && !operand.List? ==> r == Malformed)
            && (op == "all" && operand.List? ==> r == EvaluateAll(operand.items, o))
            && (op == "any" && operand.List? ==> r == EvaluateAny(operand.items, o))
            && (op == "not" && operand == List([]) ==> r == Ok(true))
            && (op == "not" && operand.List? && operand.items != [] ==>
                  && (r == Ok(true) <==> EvaluateAtom(operand.items[0], o) == Ok(false))
                  && (r == Ok(false) <==> EvaluateAtom(operand.items[0], o) == Ok(true)))
            && (op !in {"equals", "in", "present", "range", "before", "after", "within", "expired", "not_expired",
                        "age_lt", "age_gt", "within_last", "within_next", "all", "any", "not"}
                ==> r == UnknownAtom(op))
  {
    assert "all" != "any" && "all" != "not" && "any" != "not";
  }

  /** Anything but a dictionary with one key is malformed. */
  lemma OneKeyIsNeeded(a: Json, o: FieldOracle)
    requires !a.Dict? || |a.entries| != 1
    ensures EvaluateAtom(a, o) == Malformed
  {
  }

  /** The key's value in the dictionary; of two equal keys, which a dictionary has not, the first. */
  lemma {:induction false} MemberIs(entries: seq<(string, Json)>, k: string, i: nat)
    requires i < |entries| && entries[i].0 == k && forall j :: 0 <= j < i ==> entries[j].0 != k
    ensures Member(entries, k) == Some(entries[i].1)
  {
    if i > 0 {
      MemberIs(entries[1..], k, i - 1);
    }
  }

  lemma {:induction false} MemberIsNot(entries: seq<(string, Json)>, k: string)
    requires forall j :: 0 <= j < |entries| ==> entries[j].0 != k
    ensures Member(entries, k) == None
  {
    if entries != [] {
      MemberIsNot(entries[1..], k);
    }
  }

  /**
    The verdict on a boundary with a top-level "all": pass when every item is true, fail when the first that
    is not is false, indeterminate when that one is an error or the operand is no list.
   */
  lemma AllVerdict(a: Json, i: nat, o: FieldOracle)
    requires a.Dict? && i < |a.entries| && a.entries[i].0 == "all" && forall j :: 0 <= j < i ==> a.entries[j].0 != "all"
    ensures var operand := a.entries[i].1;
            && (!operand.List? ==> BoundaryVerdict(a, o) == Indeterminate)
            && (operand.List? ==>
                  && (BoundaryVerdict(a, o) == Pass <==>
                        forall j :: 0 <= j < |operand.items| ==> EvaluateAtom(operand.items[j], o) == Ok(true))
                  && (BoundaryVerdict(a, o) == Fail <==>
                        exists k: nat :: FirstOther(operand.items, o, true, k)
                                    && EvaluateAtom(operand.items[k], o) == Ok(false)))
  {
    MemberIs(a.entries, "all", i);
    if a.entries[i].1.List? {
      AllIs(a.entries[i].1.items, o);
    }
  }

  /** The verdict on any other boundary: pass or fail as the atom is true or false, and else indeterminate. */
  lemma AtomVerdict(a: Json, o: FieldOracle)
    requires !a.Dict? || forall j :: 0 <= j < |a.entries| ==> a.entries[j].0 != "all"
    ensures BoundaryVerdict(a, o) == Pass <==> EvaluateAtom(a, o) == Ok(true)
    ensures BoundaryVerdict(a, o) == Fail <==> EvaluateAtom(a, o) == Ok(false)
  {
    if a.Dict? {
      MemberIsNot(a.entries, "all");
    }
  }

  // ---------------------------------------------------------------- pre-validation

  predicate ValidAtoms(a: Json)
    decreases a, 1, 0
  {
    a.Dict? && ValidEntries(a.entries)
  }

  predicate ValidEntries(entries: seq<(string, Json)>)
    decreases entries, 0, |entries|
  {
    entries == [] || (ValidEntry(entries[0]) && ValidEntries(entries[1..]))
  }

  predicate ValidEntry(e: (string, Json))
    decreases e, 0, 0
  {
    && e.0 in FIELD_ATOMS + LOGICAL_ATOMS
    && (e.0 in LOGICAL_ATOMS && e.1.List? ==> forall i :: 0 <= i < |e.1.items| ==> ValidAtoms(e.1.items[i]))
  }

  /** `_validate_atoms`. */
  method ValidateAtoms(a: Json) returns (ok: bool)
    ensures ok == ValidAtoms(a)
    decreases a
  {
    if !a.Dict? {
      return false;
    }
    assert a.entries[0..] == a.entries;
    for i := 0 to |a.entries|
      invariant ValidEntries(a.entries[i..]) == ValidAtoms(a)
    {
      var e := a.entries[i];
      assert a.entries[i..][0] == e && a.entries[i..][1..] == a.entries[i + 1..];
      if e.0 !in FIELD_ATOMS + LOGICAL_ATOMS {
        return false;
      }
      if e.0 in LOGICAL_ATOMS && e.1.List? {
        var subs := e.1.items;
        for j := 0 to |subs|
          invariant forall l :: 0 <= l < j ==> ValidAtoms(subs[l])
        {
          var good := ValidateAtoms(subs[j]);
          if !good {
            return false;
          }
        }
      }
    }
    return true;
  }

  /** `s` is `a` or stands inside it, under any nesting of all, any and not. */
  ghost predicate Nested(a: Json, s: Json)
    decreases a
  {
    s == a ||
    (a.Dict? && exists i, j ::
       0 <= i < |a.entries| && a.entries[i].0 in {"all", "any", "not"} && a.entries[i].1.List? &&
       0 <= j < |a.entries[i].1.items| && Nested(a.entries[i].1.items[j], s))
  }

  lemma {:induction false} ValidEntriesAt(entries: seq<(string, Json)>, i: nat)
    requires ValidEntries(entries) && i < |entries|
    ensures ValidEntry(entries[i])
  {
    if i > 0 {
      ValidEntriesAt(entries[1..], i - 1);
    }
  }

  lemma {:induction false} ValidNested(a: Json, s: Json)
    requires ValidAtoms(a) && Nested(a, s)
    ensures ValidAtoms(s)
    decreases a
  {
    if s != a {
      var i, j :| 0 <= i < |a.entries| && a.entries[i].0 in {"all", "any", "not"} && a.entries[i].1.List? &&
        0 <= j < |a.entries[i].1.items| && Nested(a.entries[i].1.items[j], s);
      ValidEntriesAt(a.entries, i);
      ValidNested(a.entries[i].1.items[j], s);
    }
  }

  lemma {:induction false} ValidNeverUnknown(a: Json, o: FieldOracle)
    requires ValidAtoms(a)
    ensures !EvaluateAtom(a, o).UnknownAtom?
    decreases a, 1, 0
  {
    if |a.entries| == 1 {
      var (op, operand) := a.entries[0];
      ValidEntriesAt(a.entries, 0);
      if op in LOGICAL_ATOMS && operand.List? {
        ValidAllNeverUnknown(operand.items, o);
        if operand.items != [] {
          ValidNeverUnknown(operand.items[0], o);
        }
      }
    }
  }

  lemma {:induction false} ValidAllNeverUnknown(items: seq<Json>, o: FieldOracle)
    requires forall i :: 0 <= i < |items| ==> ValidAtoms(items[i])
    ensures !EvaluateAll(items, o).UnknownAtom? && !EvaluateAny(items, o).UnknownAtom?
    decreases items, 0, |items|
  {
    if items != [] {
      ValidNeverUnknown(items[0], o);
      ValidAllNeverUnknown(items[1..], o);
    }
  }

  // ---------------------------------------------------------------- main results

  /** After pre-validation no atom, however deeply nested, evaluates to the unknown-operator error. */
  lemma ValidationIsAdequate(a: Json, s: Json, o: FieldOracle)
    requires ValidAtoms(a) && Nested(a, s)
    ensures !EvaluateAtom(s, o).UnknownAtom?
  {
    ValidNested(a, s);
    ValidNeverUnknown(s, o);
  }

  /** A boundary passes exactly when everything nested in it is a dictionary of known operators. */
  lemma ValidAtomsIff(a: Json)
    ensures ValidAtoms(a) <==> forall s :: Nested(a, s) ==> NamesKnown(s)
  {
    if ValidAtoms(a) {
      forall s | Nested(a, s) ensures NamesKnown(s) {
        ValidNested(a, s);
        forall i | 0 <= i < |s.entries| ensures s.entries[i].0 in FIELD_ATOMS + LOGICAL_ATOMS {
          ValidEntriesAt(s.entries, i);
        }
      }
    } else {
      var s := RejectionIsJustified(a);
      if s.Dict? {
        var i :| 0 <= i < |s.entries| && s.entries[i].0 !in FIELD_ATOMS + LOGICAL_ATOMS;
        assert s.entries[i].0 !in FIELD_ATOMS && s.entries[i].0 !in LOGICAL_ATOMS;
      }
      assert !NamesKnown(s);
    }
  }

  ghost predicate NamesKnown(s: Json) {
    s.Dict? && forall i :: 0 <= i < |s.entries| ==>
      s.entries[i].0 in {"equals", "in", "present", "range", "before", "after", "within", "expired", "not_expired",
                         "age_lt", "age_gt", "within_last", "within_next", "all", "any", "not"}
  }

  /** A rejected boundary really contains something that is not an atom or names no known operator. */
  lemma {:induction false} RejectionIsJustified(a: Json) returns (s: Json)
    requires !ValidAtoms(a)
    ensures Nested(a, s)
    ensures !s.Dict? || exists i :: 0 <= i < |s.entries| && s.entries[i].0 !in FIELD_ATOMS + LOGICAL_ATOMS
    decreases a
  {
    s := a;
    if a.Dict? {
      var i := InvalidEntry(a.entries);
      var e := a.entries[i];
      if e.0 in FIELD_ATOMS + LOGICAL_ATOMS {
        var j :| 0 <= j < |e.1.items| && !ValidAtoms(e.1.items[j]);
        s := RejectionIsJustified(e.1.items[j]);
      }
    }
  }

  lemma {:induction false} InvalidEntry(entries: seq<(string, Json)>) returns (i: nat)
    requires !ValidEntries(entries)
    ensures i < |entries| && !ValidEntry(entries[i])
  {
    if ValidEntry(entries[0]) {
      i := InvalidEntry(entries[1..]);
      i := i + 1;
    } else {
      i := 0;
    }
  }

  /** The first item that is not true is an error. */
  ghost predicate FirstNotTrueFails(items: seq<Json>, o: FieldOracle) {
    exists k: nat :: FirstOther(items, o, true, k) && EvaluateAtom(items[k], o).Failed()
  }

  lemma AllFailsIff(items: seq<Json>, o: FieldOracle)
    ensures EvaluateAll(items, o).Failed() <==> FirstNotTrueFails(items, o)
  {
    AllIs(items, o);
  }

  /**
    The loop for a top-level "all" gives the evaluator's answer exactly when "all" is the only key, its
    operand is no list, or the first atom in it that is not true is an error. In all other cases the
    evaluator refuses the further keys, while the loop ignores them.
   */
  lemma TopLevelAllAgrees(a: Json, o: FieldOracle)
    requires a.Dict? && Member(a.entries, "all").Some?
    ensures var operand := Member(a.entries, "all").value;
            BoundaryVerdict(a, o) == VerdictOf(EvaluateAtom(a, o))
            <==> |a.entries| == 1 || !operand.List? || FirstNotTrueFails(operand.items, o)
  {
    var operand := Member(a.entries, "all").value;
    if operand.List? {
      AllFailsIff(operand.items, o);
    }
    if |a.entries| == 1 {
      assert a.entries[1..] == [];
      assert a.entries[0].0 == "all";
      assert "all" !in FIELD_ATOMS;
    }
  }

  /** A boundary that passes pre-validation and on which the two differ, whatever the field atoms answer. */
  lemma FurtherKeysAreIgnored(o: FieldOracle)
    ensures var a := Dict([("all", List([])), ("any", List([]))]);
            ValidAtoms(a) && BoundaryVerdict(a, o) == Pass && VerdictOf(EvaluateAtom(a, o)) == Indeterminate
  {
    var entries := [("all", List([])), ("any", List([]))];
    assert entries[1..] == [("any", List([]))] && entries[1..][1..] == [];
    assert ValidEntry(entries[0]) && ValidEntry(entries[1]);
    assert ValidEntries(entries[1..]);
  }

  // ---------------------------------------------------------------- the operand of "not"

  function Negated(e: Evaluated): Evaluated {
    match e case Ok(b) => Ok(!b) case _ => e
  }

  /*
    The specification says two things: every atom has an array of operands, and the operand of "not" is
    a single atom. The other implementations and the conformance vectors take the atom itself.
   */

  /** "not" over an array of exactly one operand; any other operand is indeterminate. */
  function NotOfArray(operand: Json, o: FieldOracle): Verdict {
    if operand.List? && |operand.items| == 1 then VerdictOf(Negated(EvaluateAtom(operand.items[0], o)))
    else Indeterminate
  }

  /** "not" over the atom itself; an operand that is no atom is indeterminate. */
  function NotOfAtom(operand: Json, o: FieldOracle): Verdict {
    VerdictOf(Negated(EvaluateAtom(operand, o)))
  }

  /**
    Read as taking an array, Python decides "not" where indeterminate is due exactly on the empty list, and
    on a list of several operands of which the first evaluates; everywhere else it does what it should.
   */
  lemma NotTakesAnArrayIff(operand: Json, o: FieldOracle)
    ensures BoundaryVerdict(Dict([("not", operand)]), o) == NotOfArray(operand, o)
            <==> !(operand.List? && (operand.items == []
                                     || (|operand.items| > 1 && !EvaluateAtom(operand.items[0], o).Failed())))
  {
    NotAlone(operand, o);
  }

  /**
    Read as taking the atom itself, Python does what it should exactly where nothing can be decided: on an
    atom that fails to evaluate, on a non-empty list whose first item fails, and on what is neither.
   */
  lemma NotTakesAnAtomIff(operand: Json, o: FieldOracle)
    ensures BoundaryVerdict(Dict([("not", operand)]), o) == NotOfAtom(operand, o)
            <==> match operand
                 case Dict(_) => EvaluateAtom(operand, o).Failed()
                 case List(items) => items != [] && EvaluateAtom(items[0], o).Failed()
                 case Other(_) => true
  {
    NotAlone(operand, o);
  }

  /**
    The conformance vectors for "not": over an "equals" atom that evaluates, the verdict should be the
    opposite, and Python's is indeterminate.
   */
  lemma BareNotIsIndeterminate(o: FieldOracle)
    ensures var equals := List([Other("\"env\""), Other("\"prod\"")]);
            var operand := Dict([("equals", equals)]);
            && BoundaryVerdict(Dict([("not", operand)]), o) == Indeterminate
            && (o("equals", equals) == Some(false) ==> NotOfAtom(operand, o) == Pass)
            && (o("equals", equals) == Some(true) ==> NotOfAtom(operand, o) == Fail)
  {
    var equals := List([Other("\"env\""), Other("\"prod\"")]);
    NotAlone(Dict([("equals", equals)]), o);
    assert "equals" in FIELD_ATOMS;
  }

  lemma NotAlone(operand: Json, o: FieldOracle)
    ensures BoundaryVerdict(Dict([("not", operand)]), o)
            == if !operand.List? then Indeterminate else if operand.items == [] then Pass
               else VerdictOf(Negated(EvaluateAtom(operand.items[0], o)))
  {
    var entries := [("not", operand)];
    assert entries[1..] == [];
    assert "not" != "all" && "not" != "any" && "not" !in FIELD_ATOMS;
    assert Member(entries, "all") == None;
  }

  /** The empty list passes, and operands after the first are not looked at; both survive pre-validation. */
  lemma NotAcceptsOperandCounts(o: FieldOracle)
    ensures var none := Dict([("not", List([]))]);
            var several := Dict([("not", List([Dict([("any", List([]))]), Dict([])]))]);
            && ValidAtoms(none) && BoundaryVerdict(none, o) == Pass
            && ValidAtoms(several) && BoundaryVerdict(several, o) == Pass
  {
    var any := Dict([("any", List([]))]);
    NotAlone(List([]), o);
    NotAlone(List([any, Dict([])]), o);
    NothingIsAny(o);
    assert any.entries[1..] == [] && ValidEntry(any.entries[0]) && ValidAtoms(any);
    NotIsValid(List([]));
    NotIsValid(List([any, Dict([])]));
  }

  lemma NothingIsAny(o: FieldOracle)
    ensures EvaluateAtom(Dict([("any", List([]))]), o) == Ok(false)
  {
    assert "any" != "all" && "any" !in FIELD_ATOMS;
  }

  lemma NotIsValid(operand: Json)
    requires operand.List? ==> forall i :: 0 <= i < |operand.items| ==> ValidAtoms(operand.items[i])
    ensures ValidAtoms(Dict([("not", operand)]))
  {
    var entries := [("not", operand)];
    assert entries[1..] == [] && ValidEntry(entries[0]);
  }
}
