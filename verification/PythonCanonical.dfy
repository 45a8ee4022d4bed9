/**
  The Python canonical encoder: a classification pass that validates and sorts, then `emit`.

  Python dictionaries keep insertion order, so the value is modelled with ordered members;
  `ToValue` forgets the order. The encoder is compared with the command-line tool's.
 */
module PythonCanonical {
  import opened Utf8
  import opened Canonical
  import opened Numerals
  import opened UniqueDecoding
  import opened CanonicalPorts

  datatype PyValue =
    | PyNone
    | PyBool(b: bool)
    | PyInt(i: int)
    | PyFloat(lexeme: string)
    | PyStr(s: string)
    | PyList(elements: seq<PyValue>)
    | PyDict(entries: seq<(string, PyValue)>)

  datatype Tagged =
    | TaggedNull
    | TaggedBool(b: bool)
    | TaggedInt(i: int)
    | TaggedStr(s: string)
    | TaggedArr(items: seq<Tagged>)
    | TaggedObj(mapping: seq<(string, Tagged)>)

  /** `CanonError`: both cases carry the message "non-safe-integer number". */
  datatype CanonError = UnsafeInteger(i: int) | FloatValue(lexeme: string)

  function KeysOf(entries: seq<(string, PyValue)>): set<string> {
    if entries == [] then {} else {entries[0].0} + KeysOf(entries[1..])
  }

  function IndexOf(entries: seq<(string, PyValue)>, k: string): (i: nat)
    requires k in KeysOf(entries)
    ensures i < |entries| && entries[i].0 == k
  {
    if entries[0].0 == k then 0 else 1 + IndexOf(entries[1..], k)
  }

  lemma {:induction false} KeyAt(entries: seq<(string, PyValue)>, i: nat)
    requires i < |entries|
    ensures entries[i].0 in KeysOf(entries)
  {
    if i > 0 {
      KeyAt(entries[1..], i - 1);
    }
  }

  /** `value[k]`. */
  function Lookup(p: PyValue, k: string): (v: PyValue)
    requires p.PyDict? && k in KeysOf(p.entries)
    ensures v < p
  {
    p.entries[IndexOf(p.entries, k)].1
  }

  // ---------------------------------------------------------------- first pass

  ghost function Classify(p: PyValue, nfc: string -> string): Result<Tagged, CanonError>
    decreases p, 1, 0
  {
    match p
    case PyNone => Ok(TaggedNull)
    case PyBool(b) => Ok(TaggedBool(b))
    case PyInt(i) => if MIN_SAFE_INTEGER <= i <= MAX_SAFE_INTEGER then Ok(TaggedInt(i)) else Err(UnsafeInteger(i))
    case PyFloat(lexeme) => Err(FloatValue(lexeme))
    case PyStr(s) => Ok(TaggedStr(nfc(s)))
    case PyList(elements) =>
      (match ClassifyItems(elements, nfc)
       case Ok(items) => Ok(TaggedArr(items))
       case Err(e) => Err(e))
    case PyDict(entries) =>
      (match ClassifyMembers(p, SortKeys(KeysOf(entries), ByBytes), nfc)
       case Ok(mapping) => Ok(TaggedObj(mapping))
       case Err(e) => Err(e))
  }

  ghost function ClassifyItems(elements: seq<PyValue>, nfc: string -> string): (r: Result<seq<Tagged>, CanonError>)
    ensures r.Ok? ==> |r.value| == |elements|
    decreases elements, 0, |elements|
  {
    if elements == [] then Ok([]) else
    match Classify(elements[0], nfc)
    case Err(e) => Err(e)
    case Ok(t) =>
      match ClassifyItems(elements[1..], nfc)
      case Err(e) => Err(e)
      case Ok(ts) => Ok([t] + ts)
  }

  ghost function ClassifyMembers(p: PyValue, ks: seq<string>, nfc: string -> string)
      : (r: Result<seq<(string, Tagged)>, CanonError>)
    requires p.PyDict? && forall k :: k in ks ==> k in KeysOf(p.entries)
    ensures r.Ok? ==> |r.value| == |ks|
    decreases p, 0, |ks|
  {
    if ks == [] then Ok([]) else
    match Classify(Lookup(p, ks[0]), nfc)
    case Err(e) => Err(e)
    case Ok(t) =>
      match ClassifyMembers(p, ks[1..], nfc)
      case Err(e) => Err(e)
      case Ok(ts) => Ok([(ks[0], t)] + ts)
  }

  /** What is classified so far, completed by the rest, is the whole. */
  ghost predicate Continues<T>(whole: Result<seq<T>, CanonError>, done: seq<T>, rest: Result<seq<T>, CanonError>) {
    match rest
    case Ok(more) => whole == Ok(done + more)
    case Err(e) => whole == Err(e)
  }

  /** `_classify`, with its loops over lists and over the sorted keys of a dictionary. */
  method ClassifyValue(p: PyValue, nfc: string -> string) returns (r: Result<Tagged, CanonError>)
    ensures r == Classify(p, nfc)
    decreases p
  {
    match p {
      case PyNone => return Ok(TaggedNull);
      case PyBool(b) => return Ok(TaggedBool(b));
      case PyInt(i) =>
        if MIN_SAFE_INTEGER <= i <= MAX_SAFE_INTEGER {
          return Ok(TaggedInt(i));
        }
        return Err(UnsafeInteger(i));
      case PyFloat(lexeme) => return Err(FloatValue(lexeme));
      case PyStr(s) => return Ok(TaggedStr(nfc(s)));
      case PyList(elements) =>
        var items: seq<Tagged> := [];
        assert elements[0..] == elements;
        Unstarted(ClassifyItems(elements, nfc));
        for i := 0 to |elements|
          invariant Continues(ClassifyItems(elements, nfc), items, ClassifyItems(elements[i..], nfc))
        {
          assert elements[i..][0] == elements[i] && elements[i..][1..] == elements[i + 1..];
          r := ClassifyValue(elements[i], nfc);
          if r.Err? {
            return;
          }
          ContinueWith(ClassifyItems(elements, nfc), items, r.value, ClassifyItems(elements[i + 1..], nfc));
          items := items + [r.value];
        }
        assert items + [] == items;
        return Ok(TaggedArr(items));
      case PyDict(entries) =>
        var keys := SortedKeys(KeysOf(entries));
        var obj: seq<(string, Tagged)> := [];
        assert keys[0..] == keys;
        Unstarted(ClassifyMembers(p, keys, nfc));
        for i := 0 to |keys|
          invariant Continues(ClassifyMembers(p, keys, nfc), obj, ClassifyMembers(p, keys[i..], nfc))
        {
          assert keys[i..][0] == keys[i] && keys[i..][1..] == keys[i + 1..];
          assert keys[i] in keys;
          r := ClassifyValue(Lookup(p, keys[i]), nfc);
          if r.Err? {
            return;
          }
          ContinueWith(ClassifyMembers(p, keys, nfc), obj, (keys[i], r.value), ClassifyMembers(p, keys[i + 1..], nfc));
          obj := obj + [(keys[i], r.value)];
        }
        assert obj + [] == obj;
        return Ok(TaggedObj(obj));
    }
  }

  lemma Unstarted<T>(whole: Result<seq<T>, CanonError>)
    ensures Continues(whole, [], whole)
  {
    if whole.Ok? {
      assert [] + whole.value == whole.value;
    }
  }

  lemma ContinueWith<T>(whole: Result<seq<T>, CanonError>, done: seq<T>, next: T, rest: Result<seq<T>, CanonError>)
    requires match rest case Ok(more) => whole == Ok(done + ([next] + more)) case Err(e) => whole == Err(e)
    ensures Continues(whole, done + [next], rest)
  {
    if rest.Ok? {
      assert done + ([next] + rest.value) == done + [next] + rest.value;
    }
  }

  // ---------------------------------------------------------------- second pass

  function Emit(t: Tagged): string
    decreases t, 1, 0
  {
    match t
    case TaggedNull => "null"
    case TaggedBool(b) => if b then "true" else "false"
    case TaggedInt(i) => IntegerText(i)
    case TaggedStr(s) => QuoteText(s)
    case TaggedArr(items) => "[" + EmitItems(items) + "]"
    case TaggedObj(mapping) => "{" + EmitMembers(mapping) + "}"
  }

  function EmitItems(items: seq<Tagged>): string
    decreases items, 0, |items|
  {
    if items == [] then "" else
    if |items| == 1 then Emit(items[0]) else Emit(items[0]) + "," + EmitItems(items[1..])
  }

  function EmitMembers(mapping: seq<(string, Tagged)>): string
    decreases mapping, 0, |mapping|
  {
    if mapping == [] then "" else
    if |mapping| == 1 then EmitMember(mapping[0]) else EmitMember(mapping[0]) + "," + EmitMembers(mapping[1..])
  }

  function EmitMember(member: (string, Tagged)): string
    decreases member, 0, 0
  {
    QuoteText(member.0) + ":" + Emit(member.1)
  }

  /** `canonical_bytes`. */
  ghost function PyBytes(p: PyValue, nfc: string -> string): Result<Bytes, CanonError> {
    match Classify(p, nfc)
    case Ok(t) => Ok(Utf8.Encode(Emit(t)))
    case Err(e) => Err(e)
  }

  // ---------------------------------------------------------------- order independence

  /** The JSON value a Python value stands for, whatever the insertion order. */
  function ToValue(p: PyValue): Value
    decreases p
  {
    match p
    case PyNone => Null
    case PyBool(b) => Bool(b)
    case PyInt(i) => Num(Integral(i))
    case PyFloat(lexeme) => Num(Fractional(lexeme))
    case PyStr(s) => Str(s)
    case PyList(elements) => Arr(seq(|elements|, i requires 0 <= i < |elements| => ToValue(elements[i])))
    case PyDict(entries) => Obj(map k | k in KeysOf(entries) :: ToValue(Lookup(p, k)))
  }

  ghost predicate DistinctKeys(entries: seq<(string, PyValue)>) {
    forall i, j {:trigger entries[i], entries[j]} :: 0 <= i < j < |entries| ==> entries[i].0 != entries[j].0
  }

  /**
    Equality of Python values of one type: lists element by element, dictionaries key by key at every
    depth, whatever the insertion order. Unlike `==` it keeps booleans, integers and floats apart.
   */
  ghost predicate Equal(p: PyValue, q: PyValue)
    decreases p
  {
    match p
    case PyList(elements) =>
      q.PyList? && |elements| == |q.elements| && forall i :: 0 <= i < |elements| ==> Equal(elements[i], q.elements[i])
    case PyDict(entries) =>
      q.PyDict? && KeysOf(entries) == KeysOf(q.entries) && forall k :: k in KeysOf(entries) ==>
        Equal(Lookup(p, k), Lookup(q, k))
    case _ => p == q
  }

  lemma {:induction false} EqualToItself(p: PyValue)
    ensures Equal(p, p)
    decreases p
  {
    match p {
      case PyList(elements) =>
        forall i | 0 <= i < |elements| ensures Equal(elements[i], elements[i]) {
          EqualToItself(elements[i]);
        }
      case PyDict(entries) =>
        forall k | k in KeysOf(entries) ensures Equal(Lookup(p, k), Lookup(p, k)) {
          EqualToItself(Lookup(p, k));
        }
      case _ =>
    }
  }

  /** Entries inserted in another order make an equal dictionary. */
  lemma ReorderedIsEqual(p: PyValue, q: PyValue)
    requires p.PyDict? && q.PyDict? && DistinctKeys(p.entries) && DistinctKeys(q.entries)
    requires multiset(p.entries) == multiset(q.entries)
    ensures Equal(p, q)
  {
    ReorderedKeys(p.entries, q.entries);
    ReorderedKeys(q.entries, p.entries);
    forall k | k in KeysOf(p.entries) ensures Equal(Lookup(p, k), Lookup(q, k)) {
      ReorderedLookup(p, q, k);
      EqualToItself(Lookup(p, k));
    }
  }

  /** Two Python values are equal exactly when they stand for the same JSON value. */
  lemma {:induction false} EqualIffSameValue(p: PyValue, q: PyValue)
    ensures Equal(p, q) <==> ToValue(p) == ToValue(q)
    decreases p
  {
    match p {
      case PyList(elements) =>
        if q.PyList? && |elements| == |q.elements| {
          forall i | 0 <= i < |elements|
            ensures Equal(elements[i], q.elements[i]) <==> ToValue(elements[i]) == ToValue(q.elements[i]) {
            EqualIffSameValue(elements[i], q.elements[i]);
          }
        }
        if ToValue(p) == ToValue(q) {
          SameElements(p, q);
        }
      case PyDict(entries) =>
        if q.PyDict? && KeysOf(entries) == KeysOf(q.entries) {
          forall k | k in KeysOf(entries)
            ensures Equal(Lookup(p, k), Lookup(q, k)) <==> ToValue(Lookup(p, k)) == ToValue(Lookup(q, k)) {
            EqualIffSameValue(Lookup(p, k), Lookup(q, k));
          }
        }
        if ToValue(p) == ToValue(q) {
          SameMembers(p, q);
        }
      case _ =>
    }
  }

  lemma ReorderedLookup(p: PyValue, q: PyValue, k: string)
    requires p.PyDict? && q.PyDict? && DistinctKeys(q.entries)
    requires multiset(p.entries) == multiset(q.entries)
    requires k in KeysOf(p.entries) && k in KeysOf(q.entries)
    ensures Lookup(p, k) == Lookup(q, k)
  {
    var i, j := IndexOf(p.entries, k), IndexOf(q.entries, k);
    assert p.entries[i] in multiset(q.entries);
    var l :| 0 <= l < |q.entries| && q.entries[l] == p.entries[i];
    assert q.entries[l].0 == q.entries[j].0;
  }

  lemma ReorderedKeys(a: seq<(string, PyValue)>, b: seq<(string, PyValue)>)
    requires multiset(a) == multiset(b)
    ensures KeysOf(a) <= KeysOf(b)
  {
    forall k | k in KeysOf(a) ensures k in KeysOf(b) {
      var i := IndexOf(a, k);
      assert a[i] in multiset(b);
      var l :| 0 <= l < |b| && b[l] == a[i];
      KeyAt(b, l);
    }
  }

  /** The first pass sees only the value. */
  lemma {:induction false} ClassifySeesValue(p: PyValue, q: PyValue, nfc: string -> string)
    requires ToValue(p) == ToValue(q)
    ensures Classify(p, nfc) == Classify(q, nfc)
    decreases p, 1, 0
  {
    match p {
      case PyList(elements) =>
        SameElements(p, q);
        ClassifyItemsSeesValue(elements, q.elements, nfc);
      case PyDict(entries) =>
        SameMembers(p, q);
        ClassifyMembersSeesValue(p, q, SortKeys(KeysOf(entries), ByBytes), nfc);
      case _ =>
    }
  }

  lemma SameElements(p: PyValue, q: PyValue)
    requires p.PyList? && ToValue(p) == ToValue(q)
    ensures q.PyList? && |p.elements| == |q.elements|
    ensures forall i :: 0 <= i < |p.elements| ==> ToValue(p.elements[i]) == ToValue(q.elements[i])
  {
    assert |ToValue(p).items| == |ToValue(q).items|;
    forall i | 0 <= i < |p.elements| ensures ToValue(p.elements[i]) == ToValue(q.elements[i]) {
      assert ToValue(p).items[i] == ToValue(q).items[i];
    }
  }

  lemma SameMembers(p: PyValue, q: PyValue)
    requires p.PyDict? && ToValue(p) == ToValue(q)
    ensures q.PyDict? && KeysOf(p.entries) == KeysOf(q.entries)
    ensures forall k :: k in KeysOf(p.entries) ==> ToValue(Lookup(p, k)) == ToValue(Lookup(q, k))
  {
    assert ToValue(p).fields.Keys == KeysOf(p.entries);
    assert ToValue(q).fields.Keys == KeysOf(q.entries);
    forall k | k in KeysOf(p.entries) ensures ToValue(Lookup(p, k)) == ToValue(Lookup(q, k)) {
      assert ToValue(p).fields[k] == ToValue(q).fields[k];
    }
  }

  lemma {:induction false} ClassifyItemsSeesValue(ps: seq<PyValue>, qs: seq<PyValue>, nfc: string -> string)
    requires |ps| == |qs| && forall i :: 0 <= i < |ps| ==> ToValue(ps[i]) == ToValue(qs[i])
    ensures ClassifyItems(ps, nfc) == ClassifyItems(qs, nfc)
    decreases ps, 0, |ps|
  {
    if ps != [] {
      ClassifySeesValue(ps[0], qs[0], nfc);
      ClassifyItemsSeesValue(ps[1..], qs[1..], nfc);
    }
  }

  lemma {:induction false} ClassifyMembersSeesValue(p: PyValue, q: PyValue, ks: seq<string>, nfc: string -> string)
    requires p.PyDict? && q.PyDict? && KeysOf(p.entries) == KeysOf(q.entries)
    requires forall k :: k in KeysOf(p.entries) ==> ToValue(Lookup(p, k)) == ToValue(Lookup(q, k))
    requires forall k :: k in ks ==> k in KeysOf(p.entries)
    ensures ClassifyMembers(p, ks, nfc) == ClassifyMembers(q, ks, nfc)
    decreases p, 0, |ks|
  {
    if ks != [] {
      ClassifySeesValue(Lookup(p, ks[0]), Lookup(q, ks[0]), nfc);
      ClassifyMembersSeesValue(p, q, ks[1..], nfc);
    }
  }

  /** Insertion order, at any depth, never shows in the canonical bytes, nor in the error. */
  lemma InsertionOrderIrrelevant(p: PyValue, q: PyValue, nfc: string -> string)
    requires Equal(p, q)
    ensures PyBytes(p, nfc) == PyBytes(q, nfc)
  {
    EqualIffSameValue(p, q);
    ClassifySeesValue(p, q, nfc);
  }

  // ---------------------------------------------------------------- agreement with the tool

  /** String values, but not keys, are in the normal form. */
  ghost predicate NormalizedStrings(p: PyValue, nfc: string -> string)
    decreases p
  {
    match p
    case PyStr(s) => nfc(s) == s
    case PyList(elements) => forall i :: 0 <= i < |elements| ==> NormalizedStrings(elements[i], nfc)
    case PyDict(entries) => forall k :: k in KeysOf(entries) ==> NormalizedStrings(Lookup(p, k), nfc)
    case _ => true
  }

  /** Both errors are about one number; the tool names it when it fits 64 bits. */
  predicate SameFault(e: CanonError, e': CanonicalError) {
    match e
    case UnsafeInteger(i) =>
      e' == if -9223372036854775808 <= i <= 9223372036854775807 then IntegerOutOfRange(i) else FloatNotAllowed
    case FloatValue(_) => e' == FloatNotAllowed
  }

  /** A prefix comparison against the tool's encoding of the same value. */
  ghost predicate Agrees(py: Result<Bytes, CanonError>, rs: Result<Bytes, CanonicalError>, normalized: bool, s1: Bytes,
                         s2: Bytes) {
    && (py.Ok? <==> rs.Ok?)
    && (py.Err? ==> SameFault(py.error, rs.error))
    && (py.Ok? ==> (py.value + s1 == rs.value + s2 <==> normalized && s1 == s2))
  }

  ghost function EmittedItems(r: Result<seq<Tagged>, CanonError>): Result<Bytes, CanonError> {
    match r case Ok(ts) => Ok(Utf8.Encode(EmitItems(ts))) case Err(e) => Err(e)
  }

  ghost function EmittedMembers(r: Result<seq<(string, Tagged)>, CanonError>): Result<Bytes, CanonError> {
    match r case Ok(ts) => Ok(Utf8.Encode(EmitMembers(ts))) case Err(e) => Err(e)
  }

  lemma {:induction false} PyAgreement(p: PyValue, nfc: string -> string, s1: Bytes, s2: Bytes)
    ensures Agrees(PyBytes(p, nfc), EncodeCanonical(ToValue(p)), NormalizedStrings(p, nfc), s1, s2)
    decreases p, 1, 0
  {
    match p {
      case PyNone => EncodeWords(); SamePrefix(Utf8.Encode("null"), s1, s2);
      case PyBool(b) => EncodeWords(); SamePrefix(Utf8.Encode(if b then "true" else "false"), s1, s2);
      case PyInt(i) => EncodeIntegerText(i); SamePrefix(EncodeInteger(i), s1, s2);
      case PyFloat(_) =>
      case PyStr(s) =>
        EncodeQuote(nfc(s));
        StringsAgree(nfc(s), s, s1, s2);
      case PyList(_) => PyListAgreement(p, nfc, s1, s2);
      case PyDict(_) => PyDictAgreement(p, nfc, s1, s2);
    }
  }

  function Enclosed<E>(open: Byte, r: Result<Bytes, E>, close: Byte): Result<Bytes, E> {
    match r case Ok(b) => Ok([open] + b + [close]) case Err(e) => Err(e)
  }

  /** Brackets around agreeing contents agree. */
  lemma EnclosedAgreement(open: Byte, py: Result<Bytes, CanonError>, rs: Result<Bytes, CanonicalError>, close: Byte,
                          n: bool, s1: Bytes, s2: Bytes)
    requires Agrees(py, rs, n, [close] + s1, [close] + s2)
    ensures Agrees(Enclosed(open, py, close), Enclosed(open, rs, close), n, s1, s2)
  {
    if py.Ok? {
      Bracketed([open] + py.value + [close], open, py.value, close, s1, [open] + rs.value + [close], rs.value, s2);
    }
  }

  lemma PyListAgreement(p: PyValue, nfc: string -> string, s1: Bytes, s2: Bytes)
    requires p.PyList?
    ensures Agrees(PyBytes(p, nfc), EncodeCanonical(ToValue(p)), NormalizedStrings(p, nfc), s1, s2)
    decreases p, 0, |p.elements| + 1
  {
    var r := ClassifyItems(p.elements, nfc);
    var py, rs := EmittedItems(r), EncodeItems(ToValue(p).items);
    PyItemsAgreement(p.elements, ToValue(p).items, nfc, [0x5D] + s1, [0x5D] + s2);
    EnclosedAgreement(0x5B, py, rs, 0x5D, NormalizedStrings(p, nfc), s1, s2);
    if r.Ok? {
      EncodeBetween('[', EmitItems(r.value), ']');
    }
  }

  lemma PyDictAgreement(p: PyValue, nfc: string -> string, s1: Bytes, s2: Bytes)
    requires p.PyDict?
    ensures Agrees(PyBytes(p, nfc), EncodeCanonical(ToValue(p)), NormalizedStrings(p, nfc), s1, s2)
    decreases p, 0, |SortKeys(KeysOf(p.entries), ByBytes)| + 2
  {
    var ks := SortKeys(KeysOf(p.entries), ByBytes);
    var py, rs := EmittedMembers(ClassifyMembers(p, ks, nfc)), EncodeMembers(ToValue(p), ks);
    PyMembersAgreement(p, ks, nfc, [0x7D] + s1, [0x7D] + s2);
    NormalizedDict(p, nfc, ks);
    EnclosedAgreement(0x7B, py, rs, 0x7D, NormalizedStrings(p, nfc), s1, s2);
    DictBytes(p, nfc, ks);
  }

  /** Both encodings of a dictionary are the members between braces. */
  lemma DictBytes(p: PyValue, nfc: string -> string, ks: seq<string>)
    requires p.PyDict? && ks == SortKeys(KeysOf(p.entries), ByBytes)
    ensures PyBytes(p, nfc) == Enclosed(0x7B, EmittedMembers(ClassifyMembers(p, ks, nfc)), 0x7D)
    ensures EncodeCanonical(ToValue(p)) == Enclosed(0x7B, EncodeMembers(ToValue(p), ks), 0x7D)
  {
    var r := ClassifyMembers(p, ks, nfc);
    if r.Ok? {
      EncodeBetween('{', EmitMembers(r.value), '}');
    }
    assert ToValue(p).fields.Keys == KeysOf(p.entries);
  }

  lemma NormalizedDict(p: PyValue, nfc: string -> string, ks: seq<string>)
    requires p.PyDict? && ks == SortKeys(KeysOf(p.entries), ByBytes)
    ensures NormalizedStrings(p, nfc) <==> forall k :: k in ks ==> NormalizedStrings(Lookup(p, k), nfc)
  {
  }

  /** Two parts with a comma between them, or the first error. */
  function CommaJoined<E>(first: Result<Bytes, E>, others: Result<Bytes, E>): Result<Bytes, E> {
    match first
    case Err(e) => Err(e)
    case Ok(a) => match others case Err(e) => Err(e) case Ok(b) => Ok(a + [0x2C] + b)
  }

  /** Agreeing parts agree when they are joined. */
  lemma CommaAgreement(py: Result<Bytes, CanonError>, py': Result<Bytes, CanonError>, rs: Result<Bytes, CanonicalError>,
                       rs': Result<Bytes, CanonicalError>, n: bool, n': bool, s1: Bytes, s2: Bytes)
    requires Agrees(py, rs, n, s1, s2) && Agrees(py', rs', n', s1, s2)
    requires py'.Ok? ==> Agrees(py, rs, n, [0x2C] + (py'.value + s1), [0x2C] + (rs'.value + s2))
    ensures Agrees(CommaJoined(py, py'), CommaJoined(rs, rs'), n && n', s1, s2)
  {
    if py.Ok? && py'.Ok? {
      JoinAgreement(py.value, py'.value, s1, rs.value, rs'.value, s2, n, n');
    }
  }

  ghost predicate NormalizedItems(ps: seq<PyValue>, nfc: string -> string) {
    forall i :: 0 <= i < |ps| ==> NormalizedStrings(ps[i], nfc)
  }

  lemma NormalizedItemsCons(ps: seq<PyValue>, nfc: string -> string)
    requires ps != []
    ensures NormalizedItems(ps, nfc) <==> NormalizedStrings(ps[0], nfc) && NormalizedItems(ps[1..], nfc)
  {
    assert ps == [ps[0]] + ps[1..];
  }

  lemma {:induction false} PyItemsAgreement(ps: seq<PyValue>, vs: seq<Value>, nfc: string -> string, s1: Bytes,
                                            s2: Bytes)
    requires |ps| == |vs| && forall i :: 0 <= i < |ps| ==> vs[i] == ToValue(ps[i])
    ensures Agrees(EmittedItems(ClassifyItems(ps, nfc)), EncodeItems(vs), NormalizedItems(ps, nfc), s1, s2)
    decreases ps, 0, |ps|
  {
    if ps == [] {
      assert [] + s1 == s1 && [] + s2 == s2;
    } else {
      NormalizedItemsCons(ps, nfc);
      PyAgreement(ps[0], nfc, s1, s2);
      if |ps| > 1 {
        var py', rs' := EmittedItems(ClassifyItems(ps[1..], nfc)), EncodeItems(vs[1..]);
        PyItemsAgreement(ps[1..], vs[1..], nfc, s1, s2);
        if py'.Ok? {
          PyAgreement(ps[0], nfc, [0x2C] + (py'.value + s1), [0x2C] + (rs'.value + s2));
        }
        ItemsCons(ps, vs, nfc);
        CommaAgreement(PyBytes(ps[0], nfc), py', EncodeCanonical(vs[0]), rs', NormalizedStrings(ps[0], nfc),
                       NormalizedItems(ps[1..], nfc), s1, s2);
      }
    }
  }

  lemma ItemsCons(ps: seq<PyValue>, vs: seq<Value>, nfc: string -> string)
    requires |ps| == |vs| > 1
    ensures EmittedItems(ClassifyItems(ps, nfc))
            == CommaJoined(PyBytes(ps[0], nfc), EmittedItems(ClassifyItems(ps[1..], nfc)))
    ensures EncodeItems(vs) == CommaJoined(EncodeCanonical(vs[0]), EncodeItems(vs[1..]))
  {
    var t, ts := Classify(ps[0], nfc), ClassifyItems(ps[1..], nfc);
    if t.Ok? && ts.Ok? {
      EmitItemsCons(t.value, ts.value);
    }
  }

  lemma EmitItemsCons(t: Tagged, ts: seq<Tagged>)
    requires ts != []
    ensures Utf8.Encode(EmitItems([t] + ts)) == Utf8.Encode(Emit(t)) + [0x2C] + Utf8.Encode(EmitItems(ts))
  {
    assert ([t] + ts)[1..] == ts;
    EncodeJoin(Emit(t), ',', EmitItems(ts));
  }

  lemma EmitMembersCons(k: string, t: Tagged, ts: seq<(string, Tagged)>)
    requires ts != []
    ensures Utf8.Encode(EmitMembers([(k, t)] + ts)) == Utf8.Encode(EmitMembers([(k, t)])) + [0x2C]
            + Utf8.Encode(EmitMembers(ts))
  {
    assert ([(k, t)] + ts)[1..] == ts;
    EncodeJoin(EmitMembers([(k, t)]), ',', EmitMembers(ts));
  }

  /** The bytes of one member. */
  ghost function EmittedMember(p: PyValue, k: string, nfc: string -> string): Result<Bytes, CanonError>
    requires p.PyDict? && k in KeysOf(p.entries)
  {
    match Classify(Lookup(p, k), nfc) case Ok(t) => Ok(Utf8.Encode(EmitMembers([(k, t)]))) case Err(e) => Err(e)
  }

  /** A key, a colon and the value. */
  function WithKey<E>(k: string, r: Result<Bytes, E>): Result<Bytes, E> {
    match r case Ok(b) => Ok(EncodeString(k) + [0x3A] + b) case Err(e) => Err(e)
  }

  lemma WithKeyAgreement(k: string, py: Result<Bytes, CanonError>, rs: Result<Bytes, CanonicalError>, n: bool,
                         s1: Bytes, s2: Bytes)
    requires Agrees(py, rs, n, s1, s2)
    ensures Agrees(WithKey(k, py), WithKey(k, rs), n, s1, s2)
  {
    if py.Ok? {
      Joined(EncodeString(k), 0x3A, py.value, s1);
      Joined(EncodeString(k), 0x3A, rs.value, s2);
      SamePrefix(EncodeString(k), [0x3A] + (py.value + s1), [0x3A] + (rs.value + s2));
      SamePrefix([0x3A], py.value + s1, rs.value + s2);
    }
  }

  lemma MemberBytes(p: PyValue, k: string, nfc: string -> string)
    requires p.PyDict? && k in KeysOf(p.entries)
    ensures EmittedMember(p, k, nfc) == WithKey(k, PyBytes(Lookup(p, k), nfc))
    ensures EncodeMember(ToValue(p), k) == WithKey(k, EncodeCanonical(ToValue(Lookup(p, k))))
  {
    var t := Classify(Lookup(p, k), nfc);
    if t.Ok? {
      EncodeJoin(QuoteText(k), ':', Emit(t.value));
      EncodeQuote(k);
      assert EmitMembers([(k, t.value)]) == QuoteText(k) + ":" + Emit(t.value);
    }
  }

  lemma PyMemberAgreement(p: PyValue, k: string, nfc: string -> string, s1: Bytes, s2: Bytes)
    requires p.PyDict? && k in KeysOf(p.entries)
    ensures Agrees(EmittedMember(p, k, nfc), EncodeMember(ToValue(p), k), NormalizedStrings(Lookup(p, k), nfc), s1, s2)
    decreases p, 0, 0
  {
    var v := Lookup(p, k);
    PyAgreement(v, nfc, s1, s2);
    WithKeyAgreement(k, PyBytes(v, nfc), EncodeCanonical(ToValue(v)), NormalizedStrings(v, nfc), s1, s2);
    MemberBytes(p, k, nfc);
  }

  lemma {:induction false} PyMembersAgreement(p: PyValue, ks: seq<string>, nfc: string -> string, s1: Bytes, s2: Bytes)
    requires p.PyDict? && forall k :: k in ks ==> k in KeysOf(p.entries)
    ensures Agrees(EmittedMembers(ClassifyMembers(p, ks, nfc)), EncodeMembers(ToValue(p), ks),
                   forall k :: k in ks ==> NormalizedStrings(Lookup(p, k), nfc), s1, s2)
    decreases p, 0, |ks| + 1
  {
    if ks == [] {
      assert [] + s1 == s1 && [] + s2 == s2;
    } else {
      assert ks == [ks[0]] + ks[1..];
      PyMemberAgreement(p, ks[0], nfc, s1, s2);
      if |ks| > 1 {
        var py', rs' := EmittedMembers(ClassifyMembers(p, ks[1..], nfc)), EncodeMembers(ToValue(p), ks[1..]);
        PyMembersAgreement(p, ks[1..], nfc, s1, s2);
        if py'.Ok? {
          PyMemberAgreement(p, ks[0], nfc, [0x2C] + (py'.value + s1), [0x2C] + (rs'.value + s2));
        }
        MembersCons(p, ks, nfc);
        ToolMembersCons(ToValue(p), ks);
        CommaAgreement(EmittedMember(p, ks[0], nfc), py', EncodeMember(ToValue(p), ks[0]), rs',
                       NormalizedStrings(Lookup(p, ks[0]), nfc),
                       forall k :: k in ks[1..] ==> NormalizedStrings(Lookup(p, k), nfc), s1, s2);
      }
    }
  }

  lemma ToolMembersCons(v: Value, ks: seq<string>)
    requires v.Obj? && |ks| > 1 && forall k :: k in ks ==> k in v.fields
    ensures EncodeMembers(v, ks) == CommaJoined(EncodeMember(v, ks[0]), EncodeMembers(v, ks[1..]))
  {
  }

  lemma MembersCons(p: PyValue, ks: seq<string>, nfc: string -> string)
    requires p.PyDict? && |ks| > 1 && forall k :: k in ks ==> k in KeysOf(p.entries)
    ensures EmittedMembers(ClassifyMembers(p, ks, nfc))
            == CommaJoined(EmittedMember(p, ks[0], nfc), EmittedMembers(ClassifyMembers(p, ks[1..], nfc)))
  {
    var t, ts := Classify(Lookup(p, ks[0]), nfc), ClassifyMembers(p, ks[1..], nfc);
    if t.Ok? && ts.Ok? {
      EmitMembersCons(ks[0], t.value, ts.value);
    }
  }

  /**
    Python raises exactly when the tool fails, about the same number; otherwise the bytes agree iff all
    string values are normalized.
   */
  lemma PythonAgrees(p: PyValue, nfc: string -> string)
    ensures PyBytes(p, nfc).Ok? <==> EncodeCanonical(ToValue(p)).Ok?
    ensures PyBytes(p, nfc).Err? ==> SameFault(PyBytes(p, nfc).error, EncodeCanonical(ToValue(p)).error)
    ensures PyBytes(p, nfc).Ok? ==>
              (PyBytes(p, nfc).value == EncodeCanonical(ToValue(p)).value <==> NormalizedStrings(p, nfc))
  {
    PyAgreement(p, nfc, [], []);
    if PyBytes(p, nfc).Ok? {
      assert PyBytes(p, nfc).value + [] == PyBytes(p, nfc).value;
      assert EncodeCanonical(ToValue(p)).value + [] == EncodeCanonical(ToValue(p)).value;
    }
  }

  /** The value with its strings, but not its keys, in the normal form. */
  function NormalForm(p: PyValue, nfc: string -> string): (q: PyValue)
    ensures q.PyDict? <==> p.PyDict?
    ensures p.PyDict? ==> KeysOf(q.entries) == KeysOf(p.entries)
    decreases p, 1, 0
  {
    match p
    case PyStr(s) => PyStr(nfc(s))
    case PyList(elements) => PyList(seq(|elements|, i requires 0 <= i < |elements| => NormalForm(elements[i], nfc)))
    case PyDict(entries) => PyDict(NormalEntries(entries, nfc))
    case _ => p
  }

  function NormalEntries(entries: seq<(string, PyValue)>, nfc: string -> string): (r: seq<(string, PyValue)>)
    ensures KeysOf(r) == KeysOf(entries)
    decreases entries, 0, |entries|
  {
    if entries == [] then [] else [NormalEntry(entries[0], nfc)] + NormalEntries(entries[1..], nfc)
  }

  function NormalEntry(entry: (string, PyValue), nfc: string -> string): (r: (string, PyValue))
    ensures r.0 == entry.0
    decreases entry, 0, 0
  {
    (entry.0, NormalForm(entry.1, nfc))
  }

  lemma {:induction false} NormalLookup(entries: seq<(string, PyValue)>, k: string, nfc: string -> string)
    requires k in KeysOf(entries)
    ensures IndexOf(NormalEntries(entries, nfc), k) == IndexOf(entries, k) && |NormalEntries(entries, nfc)| == |entries|
    ensures NormalEntries(entries, nfc)[IndexOf(entries, k)].1 == NormalForm(entries[IndexOf(entries, k)].1, nfc)
  {
    NormalLength(entries, nfc);
    var r := NormalEntries(entries, nfc);
    assert r[1..] == NormalEntries(entries[1..], nfc);
    if entries[0].0 != k {
      NormalLookup(entries[1..], k, nfc);
    }
  }

  lemma {:induction false} NormalLength(entries: seq<(string, PyValue)>, nfc: string -> string)
    ensures |NormalEntries(entries, nfc)| == |entries|
  {
    if entries != [] {
      NormalLength(entries[1..], nfc);
    }
  }

  function Same(s: string): string {
    s
  }

  /** Normalizing while classifying is classifying the normal form. */
  lemma {:induction false} ClassifyNormalForm(p: PyValue, nfc: string -> string)
    ensures Classify(p, nfc) == Classify(NormalForm(p, nfc), Same)
    decreases p, 1, 0
  {
    match p {
      case PyList(elements) => ClassifyNormalItems(elements, NormalForm(p, nfc).elements, nfc);
      case PyDict(entries) => ClassifyNormalMembers(p, SortKeys(KeysOf(entries), ByBytes), nfc);
      case _ =>
    }
  }

  lemma {:induction false} ClassifyNormalItems(ps: seq<PyValue>, qs: seq<PyValue>, nfc: string -> string)
    requires |qs| == |ps| && forall i :: 0 <= i < |ps| ==> qs[i] == NormalForm(ps[i], nfc)
    ensures ClassifyItems(ps, nfc) == ClassifyItems(qs, Same)
    decreases ps, 0, |ps|
  {
    if ps != [] {
      ClassifyNormalForm(ps[0], nfc);
      ClassifyNormalItems(ps[1..], qs[1..], nfc);
    }
  }

  lemma {:induction false} ClassifyNormalMembers(p: PyValue, ks: seq<string>, nfc: string -> string)
    requires p.PyDict? && forall k :: k in ks ==> k in KeysOf(p.entries)
    ensures ClassifyMembers(p, ks, nfc) == ClassifyMembers(NormalForm(p, nfc), ks, Same)
    decreases p, 0, |ks|
  {
    if ks != [] {
      NormalLookup(p.entries, ks[0], nfc);
      ClassifyNormalForm(Lookup(p, ks[0]), nfc);
      ClassifyNormalMembers(p, ks[1..], nfc);
    }
  }

  lemma {:induction false} AlwaysNormalized(p: PyValue)
    ensures NormalizedStrings(p, Same)
    decreases p
  {
    match p {
      case PyList(elements) =>
        forall i | 0 <= i < |elements| ensures NormalizedStrings(elements[i], Same) {
          AlwaysNormalized(elements[i]);
        }
      case PyDict(entries) =>
        forall k | k in KeysOf(entries) ensures NormalizedStrings(Lookup(p, k), Same) {
          AlwaysNormalized(Lookup(p, k));
        }
      case _ =>
    }
  }

  /** On every value, normalized or not, Python writes what the tool writes for the normal form of it. */
  lemma PythonWritesNormalForm(p: PyValue, nfc: string -> string, b: Bytes)
    ensures PyBytes(p, nfc) == Ok(b) <==> EncodeCanonical(ToValue(NormalForm(p, nfc))) == Ok(b)
  {
    ClassifyNormalForm(p, nfc);
    AlwaysNormalized(NormalForm(p, nfc));
    PythonAgrees(NormalForm(p, nfc), Same);
  }

  /** On normalized values, canonical bytes are equal exactly when the values are. */
  lemma SameBytesIffEqual(p: PyValue, q: PyValue, nfc: string -> string)
    requires PyBytes(p, nfc).Ok? && PyBytes(q, nfc).Ok?
    requires NormalizedStrings(p, nfc) && NormalizedStrings(q, nfc)
    ensures PyBytes(p, nfc) == PyBytes(q, nfc) <==> Equal(p, q)
  {
    EqualIffSameValue(p, q);
    PythonAgrees(p, nfc);
    PythonAgrees(q, nfc);
    if PyBytes(p, nfc) == PyBytes(q, nfc) {
      EncodingInjective(ToValue(p), ToValue(q));
    }
  }
}
