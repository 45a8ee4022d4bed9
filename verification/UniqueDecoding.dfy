/**
  Canonical encodings are uniquely decodable.

  `ParseValue` reads JSON text by sections 2 to 7 of RFC 8259: white space, all escapes,
  surrogate pairs, and duplicate keys with the last one winning. Numbers are the integers of
  section 6; a fraction or an exponent is outside the canonical subset and is refused.
  It knows nothing of the printer, and it inverts it.
 */
module UniqueDecoding {
  import opened Utf8
  import opened Canonical

  type Parsed<T> = Option<(T, Bytes)>

  function SkipSpace(b: Bytes): (r: Bytes)
    ensures |r| <= |b|
  {
    if b != [] && b[0] in {0x20, 0x09, 0x0A, 0x0D} then SkipSpace(b[1..]) else b
  }

  predicate IsDigit(x: Byte) {
    0x30 <= x <= 0x39
  }

  // ---------------------------------------------------------------- numbers (section 6)

  function ParseDigits(b: Bytes, acc: nat): (r: (nat, Bytes))
    ensures |r.1| <= |b|
  {
    if b != [] && IsDigit(b[0]) then ParseDigits(b[1..], acc * 10 + (b[0] - 0x30)) else (acc, b)
  }

  function ParseNatural(b: Bytes): (r: Parsed<nat>)
    ensures r.Some? ==> |r.value.1| < |b|
  {
    if b == [] || !IsDigit(b[0]) then None
    else if b[0] == 0x30 then
      if |b| > 1 && IsDigit(b[1]) then None else Some((0, b[1..]))
    else
      Some(ParseDigits(b[1..], b[0] - 0x30))
  }

  function ParseNumber(b: Bytes): (r: Parsed<int>)
    ensures r.Some? ==> |r.value.1| < |b|
  {
    var negative := b != [] && b[0] == 0x2D;
    match ParseNatural(if negative then b[1..] else b)
    case None => None
    case Some((n, rest)) =>
      if rest != [] && rest[0] in {0x2E, 0x45, 0x65} then None
      else Some((if negative then -(n as int) else n, rest))
  }

  // ---------------------------------------------------------------- strings (section 7)

  function HexValue(x: Byte): (r: Option<int>)
    ensures r.Some? ==> 0 <= r.value < 16
  {
    if 0x30 <= x <= 0x39 then Some(x - 0x30)
    else if 0x41 <= x <= 0x46 then Some(x - 0x41 + 10)
    else if 0x61 <= x <= 0x66 then Some(x - 0x61 + 10)
    else None
  }

  function ParseHex4(b: Bytes): (r: Parsed<int>)
    ensures r.Some? ==> |r.value.1| < |b| && 0 <= r.value.0 < 0x10000
  {
    if |b| < 4 then None else
    match (HexValue(b[0]), HexValue(b[1]), HexValue(b[2]), HexValue(b[3]))
    case (Some(w), Some(x), Some(y), Some(z)) => Some((((w * 16 + x) * 16 + y) * 16 + z, b[4..]))
    case _ => None
  }

  /** What follows `\u`: one code unit, or a surrogate pair. */
  function ParseUnicodeEscape(b: Bytes): (r: Parsed<char>)
    ensures r.Some? ==> |r.value.1| < |b|
  {
    match ParseHex4(b)
    case None => None
    case Some((hi, rest)) =>
      if !(0xD800 <= hi < 0xE000) then Some((hi as char, rest))
      else if hi < 0xDC00 && |rest| >= 2 && rest[0] == 0x5C && rest[1] == 0x75 then
        match ParseHex4(rest[2..])
        case None => None
        case Some((lo, rest')) =>
          if 0xDC00 <= lo < 0xE000 then
            Some(((0x10000 + (hi - 0xD800) * 0x400 + (lo - 0xDC00)) as char, rest'))
          else None
      else None
  }

  /** What follows a backslash. */
  function ParseEscape(b: Bytes): (r: Parsed<char>)
    ensures r.Some? ==> |r.value.1| < |b|
  {
    if b == [] then None
    else if b[0] == 0x22 then Some(('\"', b[1..]))
    else if b[0] == 0x5C then Some(('\\', b[1..]))
    else if b[0] == 0x2F then Some(('/', b[1..]))
    else if b[0] == 0x62 then Some((0x08 as char, b[1..]))
    else if b[0] == 0x66 then Some((0x0C as char, b[1..]))
    else if b[0] == 0x6E then Some(('\n', b[1..]))
    else if b[0] == 0x72 then Some(('\r', b[1..]))
    else if b[0] == 0x74 then Some(('\t', b[1..]))
    else if b[0] == 0x75 then ParseUnicodeEscape(b[1..])
    else None
  }

  /** One character of a string literal; the closing quote and raw control characters are none. */
  function ParseChar(b: Bytes): (r: Parsed<char>)
    ensures r.Some? ==> |r.value.1| < |b|
  {
    if b == [] || b[0] < 0x20 || b[0] == 0x22 then None
    else if b[0] == 0x5C then ParseEscape(b[1..])
    else match DecodeChar(b)
      case None => None
      case Some((c, n)) => Some((c, b[n..]))
  }

  /** The rest of a string literal, up to its closing quote. */
  function ParseStringTail(b: Bytes): (r: Parsed<string>)
    ensures r.Some? ==> |r.value.1| < |b|
    decreases |b|
  {
    if b == [] then None
    else if b[0] == 0x22 then Some(([], b[1..]))
    else match ParseChar(b)
      case None => None
      case Some((c, rest)) =>
        match ParseStringTail(rest)
        case None => None
        case Some((s, rest')) => Some(([c] + s, rest'))
  }

  function ParseString(b: Bytes): (r: Parsed<string>)
    ensures r.Some? ==> |r.value.1| < |b|
  {
    if b == [] || b[0] != 0x22 then None else ParseStringTail(b[1..])
  }

  // ---------------------------------------------------------------- values (sections 2 to 5)

  function ParseLiteral(b: Bytes, literal: Bytes, v: Value): (r: Parsed<Value>)
    requires literal != []
    ensures r.Some? ==> |r.value.1| < |b|
  {
    if literal <= b then Some((v, b[|literal|..])) else None
  }

  function ParseValue(b: Bytes): (r: Parsed<Value>)
    ensures r.Some? ==> |r.value.1| < |b|
    decreases |b|, 0
  {
    if b == [] then None
    else if b[0] == 0x6E then ParseLiteral(b, [0x6E, 0x75, 0x6C, 0x6C], Null)
    else if b[0] == 0x74 then ParseLiteral(b, [0x74, 0x72, 0x75, 0x65], Bool(true))
    else if b[0] == 0x66 then ParseLiteral(b, [0x66, 0x61, 0x6C, 0x73, 0x65], Bool(false))
    else if b[0] == 0x22 then
      match ParseString(b)
      case None => None
      case Some((s, rest)) => Some((Str(s), rest))
    else if b[0] == 0x5B then ParseArrayTail(SkipSpace(b[1..]))
    else if b[0] == 0x7B then ParseObjectTail(SkipSpace(b[1..]))
    else
      match ParseNumber(b)
      case None => None
      case Some((i, rest)) => Some((Num(Integral(i)), rest))
  }

  /** What follows `[`. */
  function ParseArrayTail(b: Bytes): (r: Parsed<Value>)
    ensures r.Some? ==> |r.value.1| < |b|
    decreases |b|, 3
  {
    if b != [] && b[0] == 0x5D then Some((Arr([]), b[1..]))
    else match ParseItems(b)
      case None => None
      case Some((items, rest)) => Some((Arr(items), rest))
  }

  /** What follows `{`. */
  function ParseObjectTail(b: Bytes): (r: Parsed<Value>)
    ensures r.Some? ==> |r.value.1| < |b|
    decreases |b|, 3
  {
    if b != [] && b[0] == 0x7D then Some((Obj(map[]), b[1..]))
    else match ParseMembers(b)
      case None => None
      case Some((fields, rest)) => Some((Obj(fields), rest))
  }

  /** One or more elements and the closing bracket. */
  function ParseItems(b: Bytes): (r: Parsed<seq<Value>>)
    ensures r.Some? ==> |r.value.1| < |b|
    decreases |b|, 1
  {
    match ParseValue(b)
    case None => None
    case Some((v, rest)) =>
      var next := SkipSpace(rest);
      if next != [] && next[0] == 0x5D then Some(([v], next[1..]))
      else if next != [] && next[0] == 0x2C then
        match ParseItems(SkipSpace(next[1..]))
        case None => None
        case Some((items, rest')) => Some(([v] + items, rest'))
      else None
  }

  /** One member: a string, a colon and a value. */
  function ParseMember(b: Bytes): (r: Parsed<(string, Value)>)
    ensures r.Some? ==> |r.value.1| < |b|
    decreases |b|, 1
  {
    match ParseString(b)
    case None => None
    case Some((k, rest)) =>
      var next := SkipSpace(rest);
      if next == [] || next[0] != 0x3A then None
      else match ParseValue(SkipSpace(next[1..]))
        case None => None
        case Some((v, rest')) => Some(((k, v), rest'))
  }

  /** One or more members and the closing brace; of two equal keys the later one counts. */
  function ParseMembers(b: Bytes): (r: Parsed<map<string, Value>>)
    ensures r.Some? ==> |r.value.1| < |b|
    decreases |b|, 2
  {
    match ParseMember(b)
    case None => None
    case Some(((k, v), rest)) =>
      var next := SkipSpace(rest);
      if next != [] && next[0] == 0x7D then Some((map[k := v], next[1..]))
      else if next != [] && next[0] == 0x2C then
        match ParseMembers(SkipSpace(next[1..]))
        case None => None
        case Some((fields, rest')) => Some((map[k := v] + fields, rest'))
      else None
  }

  /** A whole JSON text. */
  function Parse(b: Bytes): Option<Value> {
    match ParseValue(SkipSpace(b))
    case None => None
    case Some((v, rest)) => if SkipSpace(rest) == [] then Some(v) else None
  }

  // ---------------------------------------------------------------- the parser inverts the printer

  /** What may follow a value inside a larger text: nothing, a comma or a closing bracket. */
  predicate Delimited(rest: Bytes) {
    rest == [] || rest[0] in {0x2C, 0x5D, 0x7D}
  }

  lemma {:induction false} DigitsReadBack(n: nat, rest: Bytes)
    ensures ParseDigits(Digits(n) + rest, 0) == ParseDigits(rest, n)
  {
    if n >= 10 {
      var d: Byte := 0x30 + n % 10;
      assert Digits(n) + rest == Digits(n / 10) + ([d] + rest);
      DigitsReadBack(n / 10, [d] + rest);
      assert ([d] + rest)[1..] == rest;
    } else {
      assert (Digits(n) + rest)[1..] == rest;
    }
  }

  lemma NumberReadBack(i: int, rest: Bytes)
    requires Delimited(rest)
    ensures ParseNumber(EncodeInteger(i) + rest) == Some((i, rest))
  {
    var n := if i < 0 then -i else i;
    var b := Digits(n) + rest;
    DigitsReadBack(n, rest);
    assert b[0] == Digits(n)[0];
    assert ParseDigits(rest, n) == (n, rest);
    if n == 0 {
      assert b[1..] == rest;
    }
    if i < 0 {
      assert (EncodeInteger(i) + rest)[1..] == b;
    }
  }

  lemma Hex4ReadBack(n: int, rest: Bytes)
    requires 0 <= n < 0x20
    ensures ParseHex4([0x30, 0x30, HexDigit(n / 16), HexDigit(n % 16)] + rest) == Some((n, rest))
  {
    var b := [0x30, 0x30, HexDigit(n / 16), HexDigit(n % 16)] + rest;
    assert b[0] == 0x30 && b[1] == 0x30 && b[2] == HexDigit(n / 16) && b[3] == HexDigit(n % 16);
    assert b[4..] == rest;
  }

  lemma CharReadBack(c: char, rest: Bytes)
    ensures ParseChar(EscapeChar(c) + rest) == Some((c, rest))
    ensures EscapeChar(c)[0] != 0x22
  {
    var e := EscapeChar(c);
    var b := e + rest;
    var n := c as int;
    assert b[0] == e[0];
    if n < 0x20 || c == '\"' || c == '\\' {
      assert b[1..] == e[1..] + rest;
      if |e| == 6 {
        var hex := [0x30, 0x30, HexDigit(n / 16), HexDigit(n % 16)];
        assert b[1..][1..] == hex + rest;
        Hex4ReadBack(n, rest);
      } else {
        assert |e| == 2;
        assert e[1..] == [e[1]] && b[1..] == [e[1]] + rest;
        assert ([e[1]] + rest)[1..] == rest;
      }
    } else {
      DecodeEncodedChar(c, rest);
      assert b[|e|..] == rest;
    }
  }

  lemma {:induction false} StringTailReadBack(s: string, rest: Bytes)
    ensures ParseStringTail(EscapeAll(s) + [0x22] + rest) == Some((s, rest))
  {
    if s == [] {
      assert [] + [0x22] + rest == [0x22] + rest;
      assert ([0x22] + rest)[1..] == rest;
    } else {
      var tail := EscapeAll(s[1..]) + [0x22] + rest;
      assert EscapeAll(s) + [0x22] + rest == EscapeChar(s[0]) + tail;
      CharReadBack(s[0], tail);
      StringTailReadBack(s[1..], rest);
      assert s == [s[0]] + s[1..];
    }
  }

  lemma StringReadBack(s: string, rest: Bytes)
    ensures ParseString(EncodeString(s) + rest) == Some((s, rest))
  {
    assert (EncodeString(s) + rest)[1..] == EscapeAll(s) + [0x22] + rest;
    StringTailReadBack(s, rest);
  }

  /** An encoding starts with a character that is neither white space nor a closing bracket. */
  lemma EncodingStart(v: Value)
    requires EncodeCanonical(v).Ok?
    ensures EncodeCanonical(v).value != []
    ensures EncodeCanonical(v).value[0] !in {0x20, 0x09, 0x0A, 0x0D, 0x5D, 0x7D}
  {
    if v.Num? {
      var n := if v.n.i < 0 then -v.n.i else v.n.i;
      assert Digits(n)[0] in Digits(n);
    }
  }

  lemma MembersStart(v: Value, ks: seq<string>)
    requires v.Obj? && ks != [] && forall k :: k in ks ==> k in v.fields
    requires EncodeMembers(v, ks).Ok?
    ensures EncodeMembers(v, ks).value != [] && EncodeMembers(v, ks).value[0] == 0x22
  {
    var first := EncodeMember(v, ks[0]).value;
    assert first != [] && first[0] == 0x22;
  }

  lemma LiteralReadBack(v: Value, rest: Bytes)
    requires v.Null? || v.Bool?
    ensures ParseValue(EncodeCanonical(v).value + rest) == Some((v, rest))
  {
    var e := EncodeCanonical(v).value;
    var b := e + rest;
    assert b[..|e|] == e && b[|e|..] == rest;
  }

  lemma IntegerReadBack(i: int, rest: Bytes)
    requires Delimited(rest)
    ensures ParseValue(EncodeInteger(i) + rest) == Some((Num(Integral(i)), rest))
  {
    var n := if i < 0 then -i else i;
    NumberReadBack(i, rest);
    assert (EncodeInteger(i) + rest)[0] == EncodeInteger(i)[0];
    assert Digits(n)[0] in Digits(n);
  }

  lemma AfterOpen(open: Byte, e: Bytes, close: Byte, rest: Bytes)
    ensures var b := [open] + e + [close] + rest; b[0] == open && b[1..] == e + [close] + rest
  {
  }

  /**
    The parser reads a value back from its encoding, whatever delimiter follows.
    Numbers need the delimiter: their encodings are not prefix-free.
   */
  lemma {:induction false} ValueReadBack(v: Value, rest: Bytes)
    requires EncodeCanonical(v).Ok? && Delimited(rest)
    ensures ParseValue(EncodeCanonical(v).value + rest) == Some((v, rest))
    decreases v, 1, 0
  {
    match v {
      case Null => LiteralReadBack(v, rest);
      case Bool(_) => LiteralReadBack(v, rest);
      case Num(n) => IntegerReadBack(n.i, rest);
      case Str(s) =>
        StringReadBack(s, rest);
      case Arr(items) =>
        AfterOpen(0x5B, EncodeItems(items).value, 0x5D, rest);
        ArrayTailReadBack(items, rest);
      case Obj(fields) =>
        AfterOpen(0x7B, EncodeMembers(v, SortKeys(fields.Keys, ByBytes)).value, 0x7D, rest);
        ObjectTailReadBack(v, rest);
    }
  }

  lemma ArrayTailReadBack(items: seq<Value>, rest: Bytes)
    requires EncodeItems(items).Ok? && Delimited(rest)
    ensures var b := EncodeItems(items).value + [0x5D] + rest;
            SkipSpace(b) == b && ParseArrayTail(b) == Some((Arr(items), rest))
    decreases items, 0, |items| + 1
  {
    var b := EncodeItems(items).value + [0x5D] + rest;
    if items == [] {
      assert b == [0x5D] + rest;
      assert b[1..] == rest;
    } else {
      EncodingStart(items[0]);
      assert b[0] == EncodeCanonical(items[0]).value[0];
      ItemsReadBack(items, rest);
    }
  }

  lemma {:induction false} ItemsReadBack(items: seq<Value>, rest: Bytes)
    requires items != [] && EncodeItems(items).Ok? && Delimited(rest)
    ensures ParseItems(EncodeItems(items).value + [0x5D] + rest) == Some((items, rest))
    decreases items, 0, |items|
  {
    var first := EncodeCanonical(items[0]).value;
    var b := EncodeItems(items).value + [0x5D] + rest;
    if |items| == 1 {
      var next := [0x5D] + rest;
      assert b == first + next;
      ValueReadBack(items[0], next);
      assert next[1..] == rest && items == [items[0]];
    } else {
      var others := EncodeItems(items[1..]).value + [0x5D] + rest;
      var next := [0x2C] + others;
      assert b == first + next;
      ValueReadBack(items[0], next);
      assert next[1..] == others;
      EncodingStart(items[1]);
      assert items[1..][0] == items[1];
      assert others[0] == EncodeCanonical(items[1]).value[0];
      ItemsReadBack(items[1..], rest);
      assert items == [items[0]] + items[1..];
    }
  }

  lemma ObjectTailReadBack(v: Value, rest: Bytes)
    requires v.Obj? && EncodeCanonical(v).Ok? && Delimited(rest)
    ensures var b := EncodeMembers(v, SortKeys(v.fields.Keys, ByBytes)).value + [0x7D] + rest;
            SkipSpace(b) == b && ParseObjectTail(b) == Some((v, rest))
    decreases v, 0, |SortKeys(v.fields.Keys, ByBytes)| + 2
  {
    var ks := SortKeys(v.fields.Keys, ByBytes);
    var b := EncodeMembers(v, ks).value + [0x7D] + rest;
    NonemptySorting(v.fields.Keys, ByBytes, ks);
    if ks == [] {
      assert b == [0x7D] + rest;
      assert b[1..] == rest;
      assert v.fields == map[];
    } else {
      MembersStart(v, ks);
      assert b[0] == 0x22;
      MembersReadBack(v, ks, rest);
      assert v.fields == FieldsOf(v, ks);
    }
  }

  lemma MemberReadBack(v: Value, k: string, rest: Bytes)
    requires v.Obj? && k in v.fields && EncodeMember(v, k).Ok? && Delimited(rest)
    ensures ParseMember(EncodeMember(v, k).value + rest) == Some(((k, v.fields[k]), rest))
    decreases v, 0, 0
  {
    var e := EncodeCanonical(v.fields[k]).value;
    var next := [0x3A] + (e + rest);
    assert EncodeMember(v, k).value + rest == EncodeString(k) + next;
    StringReadBack(k, next);
    assert next[1..] == e + rest;
    EncodingStart(v.fields[k]);
    assert (e + rest)[0] == e[0];
    ValueReadBack(v.fields[k], rest);
  }

  function FieldsOf(v: Value, ks: seq<string>): map<string, Value>
    requires v.Obj? && forall k :: k in ks ==> k in v.fields
  {
    map k | k in ks :: v.fields[k]
  }

  lemma FieldsOfCons(v: Value, ks: seq<string>)
    requires v.Obj? && ks != [] && forall k :: k in ks ==> k in v.fields
    ensures FieldsOf(v, ks) == map[ks[0] := v.fields[ks[0]]] + FieldsOf(v, ks[1..])
  {
    assert ks == [ks[0]] + ks[1..];
  }

  lemma {:induction false} MembersReadBack(v: Value, ks: seq<string>, rest: Bytes)
    requires v.Obj? && ks != [] && forall k :: k in ks ==> k in v.fields
    requires EncodeMembers(v, ks).Ok? && Delimited(rest)
    ensures ParseMembers(EncodeMembers(v, ks).value + [0x7D] + rest) == Some((FieldsOf(v, ks), rest))
    decreases v, 0, |ks| + 1
  {
    var first := EncodeMember(v, ks[0]).value;
    var b := EncodeMembers(v, ks).value + [0x7D] + rest;
    FieldsOfCons(v, ks);
    if |ks| == 1 {
      var next := [0x7D] + rest;
      assert b == first + next;
      MemberReadBack(v, ks[0], next);
      assert next[1..] == rest;
      assert FieldsOf(v, ks) == map[ks[0] := v.fields[ks[0]]];
    } else {
      var others := EncodeMembers(v, ks[1..]).value + [0x7D] + rest;
      var next := [0x2C] + others;
      assert b == first + next by {
        assert EncodeMembers(v, ks).value == first + [0x2C] + EncodeMembers(v, ks[1..]).value;
      }
      MemberReadBack(v, ks[0], next);
      MembersStart(v, ks[1..]);
      assert others[0] == 0x22;
      MembersReadBack(v, ks[1..], rest);
      ParseMembersStep(b, ks[0], v.fields[ks[0]], next, others, FieldsOf(v, ks[1..]), rest);
    }
  }

  lemma ParseMembersStep(b: Bytes, k: string, x: Value, next: Bytes, others: Bytes, fields: map<string, Value>,
                         rest: Bytes)
    requires ParseMember(b) == Some(((k, x), next))
    requires next == [0x2C] + others && others != [] && others[0] == 0x22
    requires ParseMembers(others) == Some((fields, rest))
    ensures ParseMembers(b) == Some((map[k := x] + fields, rest))
  {
    assert next[1..] == others;
  }

  // ---------------------------------------------------------------- main results

  /** Decoding the encoding of any encodable value gives the value back. */
  lemma RoundTrip(v: Value)
    requires EncodeCanonical(v).Ok?
    ensures Parse(EncodeCanonical(v).value) == Some(v)
  {
    var b := EncodeCanonical(v).value;
    EncodingStart(v);
    assert b + [] == b;
    ValueReadBack(v, []);
  }

  /** Two delimited texts that agree start with the same value and continue alike. */
  lemma UniquelyDecodable(v1: Value, v2: Value, s1: Bytes, s2: Bytes)
    requires EncodeCanonical(v1).Ok? && EncodeCanonical(v2).Ok?
    requires Delimited(s1) && Delimited(s2)
    requires EncodeCanonical(v1).value + s1 == EncodeCanonical(v2).value + s2
    ensures v1 == v2 && s1 == s2
  {
    ValueReadBack(v1, s1);
    ValueReadBack(v2, s2);
  }

  /** Without the delimiters the statement fails: 1 then "2" is 12 then nothing. */
  lemma DelimitersAreNeeded()
    ensures exists v1, v2, s1: Bytes, s2: Bytes ::
      && EncodeCanonical(v1).Ok? && EncodeCanonical(v2).Ok? && v1 != v2
      && EncodeCanonical(v1).value + s1 == EncodeCanonical(v2).value + s2
  {
    var v1, v2 := Num(Integral(1)), Num(Integral(12));
    assert Digits(12) == Digits(1) + [0x32];
    assert EncodeCanonical(v1).value + [0x32] == EncodeCanonical(v2).value + [];
  }

  /** The encoder is injective on arbitrarily nested values. */
  lemma EncodingInjective(v1: Value, v2: Value)
    requires EncodeCanonical(v1).Ok? && EncodeCanonical(v1) == EncodeCanonical(v2)
    ensures v1 == v2
  {
    UniquelyDecodable(v1, v2, [], []);
  }
}
