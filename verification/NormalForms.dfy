/**
  The Python and TypeScript canonical encoders against each other. Both normalize string values, and
  only TypeScript normalizes keys, so they differ exactly on keys.
 */
module NormalForms {
  import opened Utf8
  import opened Canonical
  import opened CanonicalPorts
  import opened PythonCanonical

  ghost predicate Idempotent(nfc: string -> string) {
    forall s :: nfc(nfc(s)) == nfc(s)
  }

  /** The value with its string values, but not its keys, in the normal form. */
  function Normal(p: PyValue, nfc: string -> string): PyValue
    decreases p
  {
    match p
    case PyStr(s) => PyStr(nfc(s))
    case PyList(elements) => PyList(seq(|elements|, i requires 0 <= i < |elements| => Normal(elements[i], nfc)))
    case PyDict(entries) =>
      PyDict(seq(|entries|, i requires 0 <= i < |entries| => (entries[i].0, Normal(entries[i].1, nfc))))
    case _ => p
  }

  /** Every key, at any depth, is in the normal form. */
  ghost predicate NormalizedKeys(p: PyValue, nfc: string -> string)
    decreases p
  {
    match p
    case PyList(elements) => forall i :: 0 <= i < |elements| ==> NormalizedKeys(elements[i], nfc)
    case PyDict(entries) => forall k :: k in KeysOf(entries) ==> nfc(k) == k && NormalizedKeys(Lookup(p, k), nfc)
    case _ => true
  }

  // ---------------------------------------------------------------- the members of a normalized dictionary

  lemma {:induction false} SameKeys(a: seq<(string, PyValue)>, b: seq<(string, PyValue)>, k: string)
    requires |a| == |b| && forall i :: 0 <= i < |a| ==> a[i].0 == b[i].0
    ensures KeysOf(a) == KeysOf(b)
    ensures k in KeysOf(a) ==> IndexOf(a, k) == IndexOf(b, k)
    decreases |a|
  {
    if a != [] {
      SameKeys(a[1..], b[1..], k);
    }
  }

  lemma NormalMembers(p: PyValue, nfc: string -> string)
    requires p.PyDict?
    ensures Normal(p, nfc).PyDict? && KeysOf(Normal(p, nfc).entries) == KeysOf(p.entries)
    ensures forall k :: k in KeysOf(p.entries) ==> Lookup(Normal(p, nfc), k) == Normal(Lookup(p, k), nfc)
  {
    SameKeys(p.entries, Normal(p, nfc).entries, "");
    forall k | k in KeysOf(p.entries) ensures Lookup(Normal(p, nfc), k) == Normal(Lookup(p, k), nfc) {
      SameKeys(p.entries, Normal(p, nfc).entries, k);
    }
  }

  // ---------------------------------------------------------------- normalizing first changes no text

  lemma {:induction false} NormalKeepsText(p: PyValue, nfc: string -> string, fraction: string -> string)
    requires Idempotent(nfc)
    ensures Classify(Normal(p, nfc), nfc) == Classify(p, nfc)
    ensures TsCanonical(ToValue(Normal(p, nfc)), nfc, fraction) == TsCanonical(ToValue(p), nfc, fraction)
    decreases p, 1, 0
  {
    match p {
      case PyList(_) => ListKeepsText(p, nfc, fraction);
      case PyDict(_) => DictKeepsText(p, nfc, fraction);
      case _ =>
    }
  }

  lemma ListKeepsText(p: PyValue, nfc: string -> string, fraction: string -> string)
    requires Idempotent(nfc) && p.PyList?
    ensures Classify(Normal(p, nfc), nfc) == Classify(p, nfc)
    ensures TsCanonical(ToValue(Normal(p, nfc)), nfc, fraction) == TsCanonical(ToValue(p), nfc, fraction)
    decreases p, 0, |p.elements| + 1
  {
    var q := Normal(p, nfc);
    ItemsKeepText(p.elements, q.elements, ToValue(p).items, ToValue(q).items, nfc, fraction);
  }

  lemma DictKeepsText(p: PyValue, nfc: string -> string, fraction: string -> string)
    requires Idempotent(nfc) && p.PyDict?
    ensures Classify(Normal(p, nfc), nfc) == Classify(p, nfc)
    ensures TsCanonical(ToValue(Normal(p, nfc)), nfc, fraction) == TsCanonical(ToValue(p), nfc, fraction)
    decreases p, 0, |SortKeys(KeysOf(p.entries), ByBytes)| + 1
  {
    var ks := SortKeys(KeysOf(p.entries), ByBytes);
    MembersKeepText(p, ks, nfc, fraction);
    DictText(p, ks, nfc, fraction);
    DictText(Normal(p, nfc), ks, nfc, fraction);
  }

  /** Both encoders see a dictionary through its members, in the order of its keys. */
  lemma DictText(p: PyValue, ks: seq<string>, nfc: string -> string, fraction: string -> string)
    requires p.PyDict? && ks == SortKeys(KeysOf(p.entries), ByBytes)
    ensures Classify(p, nfc) == match ClassifyMembers(p, ks, nfc) case Ok(m) => Ok(TaggedObj(m)) case Err(e) => Err(e)
    ensures TsCanonical(ToValue(p), nfc, fraction) == "{" + TsMembers(ToValue(p), ks, nfc, fraction) + "}"
  {
    OrdersAgree(KeysOf(p.entries));
    assert ToValue(p).fields.Keys == KeysOf(p.entries);
  }

  lemma {:induction false} ItemsKeepText(ps: seq<PyValue>, qs: seq<PyValue>, vs: seq<Value>, ws: seq<Value>,
                                         nfc: string -> string, fraction: string -> string)
    requires Idempotent(nfc) && |ps| == |qs| == |vs| == |ws|
    requires forall i :: 0 <= i < |ps| ==>
               qs[i] == Normal(ps[i], nfc) && vs[i] == ToValue(ps[i]) && ws[i] == ToValue(qs[i])
    ensures ClassifyItems(qs, nfc) == ClassifyItems(ps, nfc)
    ensures TsItems(ws, nfc, fraction) == TsItems(vs, nfc, fraction)
    decreases ps, 0, |ps|
  {
    if ps != [] {
      NormalKeepsText(ps[0], nfc, fraction);
      ItemsKeepText(ps[1..], qs[1..], vs[1..], ws[1..], nfc, fraction);
    }
  }

  lemma {:induction false} MembersKeepText(p: PyValue, ks: seq<string>, nfc: string -> string,
                                           fraction: string -> string)
    requires Idempotent(nfc) && p.PyDict? && forall k :: k in ks ==> k in KeysOf(p.entries)
    ensures Normal(p, nfc).PyDict? && KeysOf(Normal(p, nfc).entries) == KeysOf(p.entries)
    ensures ClassifyMembers(Normal(p, nfc), ks, nfc) == ClassifyMembers(p, ks, nfc)
    ensures TsMembers(ToValue(Normal(p, nfc)), ks, nfc, fraction) == TsMembers(ToValue(p), ks, nfc, fraction)
    decreases p, 0, |ks|
  {
    NormalMembers(p, nfc);
    if ks != [] {
      NormalKeepsText(Lookup(p, ks[0]), nfc, fraction);
      MembersKeepText(p, ks[1..], nfc, fraction);
    }
  }

  // ---------------------------------------------------------------- what is normal afterwards

  lemma {:induction false} NormalIsNormalized(p: PyValue, nfc: string -> string)
    requires Idempotent(nfc)
    ensures NormalizedStrings(Normal(p, nfc), nfc)
    ensures Normalized(ToValue(Normal(p, nfc)), nfc) <==> NormalizedKeys(p, nfc)
    decreases p
  {
    match p {
      case PyList(elements) =>
        var vs := ToValue(Normal(p, nfc)).items;
        forall i | 0 <= i < |elements|
          ensures NormalizedStrings(Normal(elements[i], nfc), nfc)
          ensures Normalized(vs[i], nfc) <==> NormalizedKeys(elements[i], nfc)
        {
          NormalIsNormalized(elements[i], nfc);
        }
      case PyDict(entries) =>
        NormalMembers(p, nfc);
        var v := ToValue(Normal(p, nfc));
        assert v.fields.Keys == KeysOf(entries);
        forall k | k in KeysOf(entries)
          ensures NormalizedStrings(Lookup(Normal(p, nfc), k), nfc)
          ensures NormalizedMember(v, k, nfc) <==> nfc(k) == k && NormalizedKeys(Lookup(p, k), nfc)
        {
          NormalIsNormalized(Lookup(p, k), nfc);
        }
      case _ =>
    }
  }

  // ---------------------------------------------------------------- main result

  /**
    Wherever Python encodes, it prints the bytes that TypeScript prints exactly when every key is in the
    normal form, whatever the string values are.
   */
  lemma PythonAgreesWithTypeScript(p: PyValue, nfc: string -> string, fraction: string -> string)
    requires Idempotent(nfc) && PyBytes(p, nfc).Ok?
    ensures PyBytes(p, nfc).value == TsBytes(ToValue(p), nfc, fraction) <==> NormalizedKeys(p, nfc)
  {
    var q := Normal(p, nfc);
    NormalKeepsText(p, nfc, fraction);
    NormalIsNormalized(p, nfc);
    PythonAgrees(q, nfc);
    TypeScriptAgrees(ToValue(q), nfc, fraction);
  }
}
