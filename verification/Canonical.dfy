/**
  PB-CANON-JSON-1: the canonical printer of the command-line tool.

  `EncodeCanonical` says which bytes belong to a value; `WriteValue` and `WriteString` are
  the printer itself, which appends to a writer and stops at the first unencodable number.
 */
module Canonical {
  import opened Utf8

  const MAX_SAFE_INTEGER: int := 9007199254740991
  const MIN_SAFE_INTEGER: int := -9007199254740991

  /** A JSON number: an integer literal of any size, or anything with a fraction or exponent. */
  datatype Number = Integral(i: int) | Fractional(lexeme: string)
  {
    /** The number as a 64-bit signed integer, when it is one. */
    function AsI64(): Option<int> {
      if Integral? && -0x8000_0000_0000_0000 <= i < 0x8000_0000_0000_0000 then Some(i) else None
    }
  }

  datatype Value =
    | Null
    | Bool(b: bool)
    | Num(n: Number)
    | Str(s: string)
    | Arr(items: seq<Value>)
    | Obj(fields: map<string, Value>)

  datatype CanonicalError = IntegerOutOfRange(i: int) | FloatNotAllowed

  datatype Result<+T, +E> = Ok(value: T) | Err(error: E)

  // ---------------------------------------------------------------- scalars

  /** Decimal digits, most significant first, no leading zero. */
  function Digits(n: nat): (b: Bytes)
    ensures |b| >= 1
    ensures forall x :: x in b ==> 0x30 <= x <= 0x39
    ensures n > 0 ==> b[0] != 0x30
    ensures n < 10 ==> b == [0x30 + n]
  {
    if n < 10 then [0x30 + n] else Digits(n / 10) + [0x30 + n % 10]
  }

  function EncodeInteger(i: int): Bytes {
    if i < 0 then [0x2D] + Digits(-i) else Digits(i)
  }

  function EncodeNumber(n: Number): Result<Bytes, CanonicalError> {
    match n.AsI64()
    case Some(i) =>
      if i < MIN_SAFE_INTEGER || i > MAX_SAFE_INTEGER then Err(IntegerOutOfRange(i)) else Ok(EncodeInteger(i))
    case None => Err(FloatNotAllowed)
  }

  function HexDigit(d: int): (b: Byte)
    requires 0 <= d < 16
  {
    if d < 10 then 0x30 + d else 0x61 + (d - 10)
  }

  /** One character of a string literal. */
  function EscapeChar(c: char): (b: Bytes)
    ensures |b| >= 1
  {
    if c == '\"' then [0x5C, 0x22]
    else if c == '\\' then [0x5C, 0x5C]
    else if c as int == 0x08 then [0x5C, 0x62]
    else if c as int == 0x0C then [0x5C, 0x66]
    else if c == '\n' then [0x5C, 0x6E]
    else if c == '\r' then [0x5C, 0x72]
    else if c == '\t' then [0x5C, 0x74]
    else if c as int < 0x20 then [0x5C, 0x75, 0x30, 0x30, HexDigit(c as int / 16), HexDigit(c as int % 16)]
    else EncodeChar(c)
  }

  function EscapeAll(s: string): Bytes {
    if s == [] then [] else EscapeChar(s[0]) + EscapeAll(s[1..])
  }

  function EncodeString(s: string): Bytes {
    [0x22] + EscapeAll(s) + [0x22]
  }

  // ---------------------------------------------------------------- values

  /** The canonical bytes of a value, or the error of the first number that has none. */
  ghost function EncodeCanonical(v: Value): Result<Bytes, CanonicalError>
    decreases v, 1, 0
  {
    match v
    case Null => Ok([0x6E, 0x75, 0x6C, 0x6C])
    case Bool(b) => Ok(if b then [0x74, 0x72, 0x75, 0x65] else [0x66, 0x61, 0x6C, 0x73, 0x65])
    case Num(n) => EncodeNumber(n)
    case Str(s) => Ok(EncodeString(s))
    case Arr(items) =>
      (match EncodeItems(items)
       case Ok(b) => Ok([0x5B] + b + [0x5D])
       case Err(e) => Err(e))
    case Obj(fields) =>
      (match EncodeMembers(v, SortKeys(fields.Keys, ByBytes))
       case Ok(b) => Ok([0x7B] + b + [0x7D])
       case Err(e) => Err(e))
  }

  /** Comma-separated elements. */
  ghost function EncodeItems(items: seq<Value>): Result<Bytes, CanonicalError>
    decreases items, 0, |items|
  {
    if items == [] then Ok([]) else
    match EncodeCanonical(items[0])
    case Err(e) => Err(e)
    case Ok(first) =>
      if |items| == 1 then Ok(first) else
      match EncodeItems(items[1..])
      case Err(e) => Err(e)
      case Ok(others) => Ok(first + [0x2C] + others)
  }

  /** A key, a colon and the member's value. */
  ghost function EncodeMember(v: Value, k: string): Result<Bytes, CanonicalError>
    requires v.Obj? && k in v.fields
    decreases v, 0, 0
  {
    match EncodeCanonical(v.fields[k])
    case Err(e) => Err(e)
    case Ok(b) => Ok(EncodeString(k) + [0x3A] + b)
  }

  /** Comma-separated members for the given keys, in that order. */
  ghost function EncodeMembers(v: Value, ks: seq<string>): Result<Bytes, CanonicalError>
    requires v.Obj? && forall k :: k in ks ==> k in v.fields
    decreases v, 0, |ks| + 1
  {
    if ks == [] then Ok([]) else
    match EncodeMember(v, ks[0])
    case Err(e) => Err(e)
    case Ok(first) =>
      if |ks| == 1 then Ok(first) else
      match EncodeMembers(v, ks[1..])
      case Err(e) => Err(e)
      case Ok(others) => Ok(first + [0x2C] + others)
  }

  // ---------------------------------------------------------------- the printer

  class Writer {
    var buf: Bytes

    constructor ()
      ensures buf == []
    {
      buf := [];
    }

    method WriteAll(b: Bytes)
      modifies this
      ensures buf == old(buf) + b
    {
      buf := buf + b;
    }
  }

  method WriteString(w: Writer, s: string)
    modifies w
    ensures w.buf == old(w.buf) + EncodeString(s)
  {
    w.WriteAll([0x22]);
    ghost var start, whole := w.buf, EscapeAll(s);
    var i := 0;
    assert s[0..] == s;
    while i < |s|
      invariant 0 <= i <= |s|
      invariant w.buf + EscapeAll(s[i..]) == start + whole
    {
      EscapeStep(s, i);
      var escaped := EscapeChar(s[i]);
      Regroup(w.buf, escaped, EscapeAll(s[i + 1..]));
      w.WriteAll(escaped);
      i := i + 1;
    }
    assert w.buf == start + whole;
    w.WriteAll([0x22]);
    assert w.buf == old(w.buf) + ([0x22] + whole + [0x22]);
  }

  lemma EscapeStep(s: string, i: nat)
    requires i < |s|
    ensures EscapeAll(s[i..]) == EscapeChar(s[i]) + EscapeAll(s[i + 1..])
  {
    assert s[i..][0] == s[i] && s[i..][1..] == s[i + 1..];
  }

  lemma Regroup(a: Bytes, b: Bytes, c: Bytes)
    ensures a + b + c == a + (b + c)
  {
  }

  /** The keys of an object in the order of `keys.sort()`. */
  method SortedKeys(keys: set<string>) returns (ks: seq<string>)
    ensures ks == SortKeys(keys, ByBytes)
  {
    ks := [];
    var rest := keys;
    ghost var whole, tail := SortKeys(keys, ByBytes), SortKeys(keys, ByBytes);
    while rest != {}
      invariant tail == SortKeys(rest, ByBytes)
      invariant ks + tail == whole
      decreases rest
    {
      var least := LeastKey(rest);
      LeastFirst(rest, least);
      ks, rest := ks + [least], rest - {least};
      tail := SortKeys(rest, ByBytes);
    }
    NonemptySorting({}, ByBytes, tail);
  }

  method LeastKey(keys: set<string>) returns (least: string)
    requires keys != {}
    ensures IsLeast(least, keys, ByBytes)
  {
    least :| least in keys;
    var todo := keys - {least};
    ghost var done := {least};
    while todo != {}
      invariant keys == todo + done && todo !! done
      invariant IsLeast(least, done, ByBytes)
      decreases todo
    {
      var x :| x in todo;
      var smaller := ByBytes.Less(x, least);
      LeastOfLarger(done, least, x);
      todo, done := todo - {x}, done + {x};
      if smaller {
        least := x;
      }
    }
  }

  lemma LeastOfLarger(s: set<string>, k: string, x: string)
    requires IsLeast(k, s, ByBytes) && x !in s
    ensures IsLeast(if ByBytes.Less(x, k) then x else k, s + {x}, ByBytes)
  {
    LexTrichotomy(ByBytes.Rank(x), ByBytes.Rank(k));
    if ByBytes.Less(x, k) {
      forall z | z in s && z != k ensures ByBytes.Less(x, z) {
        LexTransitive(ByBytes.Rank(x), ByBytes.Rank(k), ByBytes.Rank(z));
      }
    } else if ByBytes.Rank(x) == ByBytes.Rank(k) {
      RankInjective(ByBytes, x, k);
    }
  }

  lemma LeastFirst(s: set<string>, k: string)
    requires IsLeast(k, s, ByBytes)
    ensures SortKeys(s, ByBytes) == [k] + SortKeys(s - {k}, ByBytes)
  {
    var ks := SortKeys(s, ByBytes);
    assert k in ks;
    LeastOfIncreasing(s, ByBytes, ks);
    LeastUnique(s, ByBytes, k, ks[0]);
    TailOfIncreasing(s, ByBytes, ks);
    SortKeysUnique(s - {k}, ByBytes, ks[1..]);
  }

  /** The outcome of the printer on the rest of its input, given what it has written. */
  ghost predicate Wrote(before: Bytes, after: Bytes, r: Result<(), CanonicalError>,
                        spec: Result<Bytes, CanonicalError>) {
    match spec
    case Ok(b) => r.Ok? && after == before + b
    case Err(e) => r == Err(e) && before <= after
  }

  method WriteValue(w: Writer, v: Value) returns (r: Result<(), CanonicalError>)
    modifies w
    ensures Wrote(old(w.buf), w.buf, r, EncodeCanonical(v))
    decreases v, 1
  {
    match v {
      case Null => w.WriteAll([0x6E, 0x75, 0x6C, 0x6C]); return Ok(());
      case Bool(b) => w.WriteAll(if b then [0x74, 0x72, 0x75, 0x65] else [0x66, 0x61, 0x6C, 0x73, 0x65]); return Ok(());
      case Num(n) =>
        match n.AsI64() {
          case Some(i) =>
            if i < MIN_SAFE_INTEGER || i > MAX_SAFE_INTEGER {
              return Err(IntegerOutOfRange(i));
            }
            w.WriteAll(EncodeInteger(i));
            return Ok(());
          case None => return Err(FloatNotAllowed);
        }
      case Str(s) => WriteString(w, s); return Ok(());
      case Arr(items) => r := WriteArray(w, v);
      case Obj(fields) => r := WriteObject(w, v);
    }
  }

  method WriteArray(w: Writer, v: Value) returns (r: Result<(), CanonicalError>)
    requires v.Arr?
    modifies w
    ensures Wrote(old(w.buf), w.buf, r, EncodeCanonical(v))
    decreases v, 0
  {
    var items := v.items;
    ghost var before, whole := w.buf, EncodeItems(items);
    w.WriteAll([0x5B]);
    ghost var start := w.buf;
    var i := 0;
    assert items[0..] == items;
    while i < |items|
      invariant 0 <= i <= |items|
      invariant before <= w.buf
      invariant Remaining(start, w.buf, 0 < i < |items|, whole, EncodeItems(items[i..]))
    {
      if i > 0 {
        w.WriteAll([0x2C]);
      }
      ghost var mid := w.buf;
      r := WriteValue(w, items[i]);
      ItemWritten(items, i, start, mid, w.buf, whole);
      if r.Err? {
        return;
      }
      i := i + 1;
    }
    Closed(before, start, w.buf, 0x5B, 0x5D, whole);
    w.WriteAll([0x5D]);
    r := Ok(());
  }

  method WriteObject(w: Writer, v: Value) returns (r: Result<(), CanonicalError>)
    requires v.Obj?
    modifies w
    ensures Wrote(old(w.buf), w.buf, r, EncodeCanonical(v))
    decreases v, 0, 1
  {
    var keys := SortedKeys(v.fields.Keys);
    ghost var before, whole := w.buf, EncodeMembers(v, keys);
    w.WriteAll([0x7B]);
    ghost var start := w.buf;
    var i := 0;
    assert keys[0..] == keys;
    while i < |keys|
      invariant 0 <= i <= |keys|
      invariant before <= w.buf
      invariant Remaining(start, w.buf, 0 < i < |keys|, whole, EncodeMembers(v, keys[i..]))
    {
      if i > 0 {
        w.WriteAll([0x2C]);
      }
      ghost var mid := w.buf;
      r := WriteMember(w, v, keys[i]);
      MemberWritten(v, keys, i, start, mid, w.buf, whole);
      if r.Err? {
        return;
      }
      i := i + 1;
    }
    Closed(before, start, w.buf, 0x7B, 0x7D, whole);
    w.WriteAll([0x7D]);
    r := Ok(());
  }

  method WriteMember(w: Writer, v: Value, k: string) returns (r: Result<(), CanonicalError>)
    requires v.Obj? && k in v.fields
    modifies w
    ensures Wrote(old(w.buf), w.buf, r, EncodeMember(v, k))
    decreases v, 0, 0
  {
    WriteString(w, k);
    w.WriteAll([0x3A]);
    ghost var head := w.buf;
    r := WriteValue(w, v.fields[k]);
    if r.Ok? {
      Regroup(old(w.buf), EncodeString(k) + [0x3A], EncodeCanonical(v.fields[k]).value);
    }
  }

  /** What is still to be written, after a comma when elements came before, completes the whole. */
  ghost predicate Remaining(start: Bytes, now: Bytes, comma: bool, whole: Result<Bytes, CanonicalError>,
                            rest: Result<Bytes, CanonicalError>) {
    match rest
    case Ok(b) => whole.Ok? && (if comma then now + [0x2C] else now) + b == start + whole.value
    case Err(e) => whole == Err(e)
  }

  lemma ItemWritten(items: seq<Value>, i: nat, start: Bytes, mid: Bytes, now: Bytes,
                    whole: Result<Bytes, CanonicalError>)
    requires i < |items|
    requires Remaining(start, mid, false, whole, EncodeItems(items[i..]))
    requires EncodeCanonical(items[i]).Ok? ==> now == mid + EncodeCanonical(items[i]).value
    ensures match EncodeCanonical(items[i])
            case Ok(_) => Remaining(start, now, i + 1 < |items|, whole, EncodeItems(items[i + 1..]))
            case Err(e) => whole == Err(e)
  {
    var rest := items[i..];
    assert rest[0] == items[i] && rest[1..] == items[i + 1..];
    ElementWritten(start, mid, now, EncodeCanonical(items[i]), EncodeItems(rest[1..]), EncodeItems(rest), whole,
                   |rest| > 1);
  }

  lemma MemberWritten(v: Value, ks: seq<string>, i: nat, start: Bytes, mid: Bytes, now: Bytes,
                      whole: Result<Bytes, CanonicalError>)
    requires v.Obj? && i < |ks| && forall k :: k in ks ==> k in v.fields
    requires Remaining(start, mid, false, whole, EncodeMembers(v, ks[i..]))
    requires EncodeMember(v, ks[i]).Ok? ==> now == mid + EncodeMember(v, ks[i]).value
    ensures match EncodeMember(v, ks[i])
            case Ok(_) => Remaining(start, now, i + 1 < |ks|, whole, EncodeMembers(v, ks[i + 1..]))
            case Err(e) => whole == Err(e)
  {
    var rest := ks[i..];
    assert rest[0] == ks[i] && rest[1..] == ks[i + 1..];
    ElementWritten(start, mid, now, EncodeMember(v, ks[i]), EncodeMembers(v, rest[1..]), EncodeMembers(v, rest), whole,
                   |rest| > 1);
  }

  /** Writing one element keeps `Remaining`; an element without an encoding is the error of the whole. */
  lemma ElementWritten(start: Bytes, mid: Bytes, now: Bytes, element: Result<Bytes, CanonicalError>,
                       others: Result<Bytes, CanonicalError>,
                       rest: Result<Bytes, CanonicalError>, whole: Result<Bytes, CanonicalError>, more: bool)
    requires Remaining(start, mid, false, whole, rest)
    requires element.Ok? ==> now == mid + element.value
    requires element.Err? ==> rest == element
    requires element.Ok? && !more ==> others == Ok([]) && rest == element
    requires element.Ok? && more && others.Ok? ==> rest == Ok(element.value + [0x2C] + others.value)
    requires element.Ok? && more && others.Err? ==> rest == others
    ensures match element
            case Ok(_) => Remaining(start, now, more, whole, others)
            case Err(e) => whole == Err(e)
  {
    if element.Ok? && others.Ok? {
      if more {
        assert mid + (element.value + [0x2C] + others.value) == now + [0x2C] + others.value;
      } else {
        assert now + [] == now;
      }
    }
  }

  /** The closing bracket ends the bracketed whole. */
  lemma Closed(before: Bytes, start: Bytes, now: Bytes, open: Byte, close: Byte, whole: Result<Bytes, CanonicalError>)
    requires start == before + [open]
    requires Remaining(start, now, false, whole, Ok([]))
    ensures whole.Ok? && now + [close] == before + ([open] + whole.value + [close])
  {
    assert now + [] == now;
  }

  /** `encode_canonical`: a fresh buffer, or the error. */
  method EncodeToBytes(v: Value) returns (r: Result<Bytes, CanonicalError>)
    ensures r == EncodeCanonical(v)
  {
    var w := new Writer();
    var outcome := WriteValue(w, v);
    assert EncodeCanonical(v).Ok? ==> [] + EncodeCanonical(v).value == EncodeCanonical(v).value;
    match outcome {
      case Ok(_) => r := Ok(w.buf);
      case Err(e) => r := Err(e);
    }
  }

  // ---------------------------------------------------------------- when encoding succeeds

  /** Every number, at any depth, is an integer of magnitude at most 2^53 - 1. */
  ghost predicate SafeNumbers(v: Value)
    decreases v
  {
    match v
    case Num(n) => n.Integral? && -9007199254740991 <= n.i <= 9007199254740991
    case Arr(items) => forall i :: 0 <= i < |items| ==> SafeNumbers(items[i])
    case Obj(fields) => forall k :: k in fields ==> SafeNumbers(fields[k])
    case _ => true
  }

  /** A value has a canonical encoding exactly when all its numbers are safe integers. */
  lemma {:induction false} EncodableIffSafe(v: Value)
    ensures EncodeCanonical(v).Ok? <==> SafeNumbers(v)
    decreases v, 1, 0
  {
    match v {
      case Arr(items) => ItemsEncodableIffSafe(items);
      case Obj(fields) => MembersEncodableIffSafe(v, SortKeys(fields.Keys, ByBytes));
      case _ =>
    }
  }

  lemma {:induction false} ItemsEncodableIffSafe(items: seq<Value>)
    ensures EncodeItems(items).Ok? <==> forall i :: 0 <= i < |items| ==> SafeNumbers(items[i])
    decreases items, 0, |items|
  {
    if items != [] {
      EncodableIffSafe(items[0]);
      ItemsEncodableIffSafe(items[1..]);
      assert items == [items[0]] + items[1..];
    }
  }

  lemma {:induction false} MembersEncodableIffSafe(v: Value, ks: seq<string>)
    requires v.Obj? && forall k :: k in ks ==> k in v.fields
    ensures EncodeMembers(v, ks).Ok? <==> forall k :: k in ks ==> SafeNumbers(v.fields[k])
    decreases v, 0, |ks|
  {
    if ks != [] {
      EncodableIffSafe(v.fields[ks[0]]);
      MembersEncodableIffSafe(v, ks[1..]);
      assert ks == [ks[0]] + ks[1..];
    }
  }

  // ---------------------------------------------------------------- which error it is

  /** A number outside the safe range is named when it fits 64 bits, and refused as no integer otherwise. */
  lemma NumberErrorIs(n: Number, e: CanonicalError)
    ensures EncodeCanonical(Num(n)) == Err(e) <==>
              if n.Integral? && -9223372036854775808 <= n.i <= 9223372036854775807
              then !(-9007199254740991 <= n.i <= 9007199254740991) && e == IntegerOutOfRange(n.i)
              else e == FloatNotAllowed
  {
  }

  /** The error of an array is that of its first element with an unsafe number. */
  lemma {:induction false} ArrayErrorIs(items: seq<Value>, e: CanonicalError)
    ensures EncodeItems(items) == Err(e)
            <==> exists k :: FirstUnsafeItem(items, k) && EncodeCanonical(items[k]) == Err(e)
    ensures EncodeCanonical(Arr(items)) == Err(e) <==> EncodeItems(items) == Err(e)
  {
    if items != [] {
      var tail := items[1..];
      EncodableIffSafe(items[0]);
      ArrayErrorIs(tail, e);
      if k :| FirstUnsafeItem(tail, k) && EncodeCanonical(tail[k]) == Err(e) {
        assert SafeNumbers(items[0]) ==> FirstUnsafeItem(items, k + 1) by {
          forall j | 0 < j < k + 1 ensures SafeNumbers(items[j]) {
            assert items[j] == tail[j - 1];
          }
        }
      }
      if k :| FirstUnsafeItem(items, k) && EncodeCanonical(items[k]) == Err(e) {
        assert k > 0 ==> FirstUnsafeItem(tail, k - 1) by {
          forall j | 0 <= j < k - 1 ensures SafeNumbers(tail[j]) {
            assert tail[j] == items[j + 1];
          }
        }
      }
      assert !SafeNumbers(items[0]) ==> FirstUnsafeItem(items, 0);
    }
  }

  ghost predicate FirstUnsafeItem(items: seq<Value>, k: int) {
    && 0 <= k < |items| && !SafeNumbers(items[k])
    && forall j :: 0 <= j < k ==> SafeNumbers(items[j])
  }

  /** The error of an object is that of the unsafe member whose key comes first in byte order. */
  lemma ObjectErrorIs(fields: map<string, Value>, e: CanonicalError)
    ensures EncodeCanonical(Obj(fields)) == Err(e) <==>
              exists k :: k in fields && FirstUnsafeMember(fields, k) && EncodeCanonical(fields[k]) == Err(e)
  {
    var v, ks := Obj(fields), SortKeys(fields.Keys, ByBytes);
    MembersErrorIs(v, ks, e);
    if i :| FirstUnsafeKey(v, ks, i) && EncodeCanonical(fields[ks[i]]) == Err(e) {
      forall j | j in fields && LexLess(Utf8.Encode(j), Utf8.Encode(ks[i])) ensures SafeNumbers(fields[j]) {
        assert j in ks;
        var l :| 0 <= l < |ks| && ks[l] == j;
        KeysInOrder(ks, l, i);
      }
      assert FirstUnsafeMember(fields, ks[i]);
    }
    if k :| k in fields && FirstUnsafeMember(fields, k) && EncodeCanonical(fields[k]) == Err(e) {
      EncodableIffSafe(fields[k]);
      assert k in ks;
      var i :| 0 <= i < |ks| && ks[i] == k;
      forall j | 0 <= j < i ensures SafeNumbers(fields[ks[j]]) {
        assert ByBytes.Less(ks[j], ks[i]);
      }
      assert FirstUnsafeKey(v, ks, i);
    }
  }

  lemma KeysInOrder(ks: seq<string>, l: nat, i: nat)
    requires Increasing(ks, ByBytes) && l < |ks| && i < |ks| && LexLess(Utf8.Encode(ks[l]), Utf8.Encode(ks[i]))
    ensures l < i
  {
    if l == i {
      LexTrichotomy(Utf8.Encode(ks[l]), Utf8.Encode(ks[i]));
    } else if i < l {
      assert ByBytes.Less(ks[i], ks[l]);
      LexTrichotomy(Utf8.Encode(ks[l]), Utf8.Encode(ks[i]));
    }
  }

  ghost predicate FirstUnsafeMember(fields: map<string, Value>, k: string)
    requires k in fields
  {
    && !SafeNumbers(fields[k])
    && forall j :: j in fields && LexLess(Utf8.Encode(j), Utf8.Encode(k)) ==> SafeNumbers(fields[j])
  }

  ghost predicate FirstUnsafeKey(v: Value, ks: seq<string>, i: int)
    requires v.Obj? && forall k :: k in ks ==> k in v.fields
  {
    && 0 <= i < |ks| && !SafeNumbers(v.fields[ks[i]])
    && forall j :: 0 <= j < i ==> SafeNumbers(v.fields[ks[j]])
  }

  lemma {:induction false} MembersErrorIs(v: Value, ks: seq<string>, e: CanonicalError)
    requires v.Obj? && forall k :: k in ks ==> k in v.fields
    ensures EncodeMembers(v, ks) == Err(e) <==>
              exists i :: FirstUnsafeKey(v, ks, i) && EncodeCanonical(v.fields[ks[i]]) == Err(e)
    decreases |ks|
  {
    if ks != [] {
      var tail := ks[1..];
      EncodableIffSafe(v.fields[ks[0]]);
      MembersErrorIs(v, tail, e);
      if i :| FirstUnsafeKey(v, tail, i) && EncodeCanonical(v.fields[tail[i]]) == Err(e) {
        assert SafeNumbers(v.fields[ks[0]]) ==> FirstUnsafeKey(v, ks, i + 1) by {
          forall j | 0 < j < i + 1 ensures SafeNumbers(v.fields[ks[j]]) {
            assert ks[j] == tail[j - 1];
          }
        }
      }
      if i :| FirstUnsafeKey(v, ks, i) && EncodeCanonical(v.fields[ks[i]]) == Err(e) {
        assert i > 0 ==> FirstUnsafeKey(v, tail, i - 1) by {
          forall j | 0 <= j < i - 1 ensures SafeNumbers(v.fields[tail[j]]) {
            assert tail[j] == ks[j + 1];
          }
        }
      }
      assert !SafeNumbers(v.fields[ks[0]]) ==> FirstUnsafeKey(v, ks, 0);
    }
  }
}
