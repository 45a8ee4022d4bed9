/**
  The canonical form of PB-CANON-JSON-1, read off the text alone.

  `StrictValue` is a grammar for canonical texts and knows nothing of the printer: no white space, one
  spelling for every character of a string, integers without sign or digit to spare and within the safe
  range, keys in increasing byte order. The printer prints exactly the texts of this grammar.
 */
module CanonicalForm {
  import opened Utf8
  import opened Canonical
  import opened UniqueDecoding

  // ---------------------------------------------------------------- the grammar

  /** The value of a lower-case hexadecimal digit. */
  function LowerHex(x: Byte): Option<int> {
    if 0x30 <= x <= 0x39 then Some(x - 0x30)
    else if 0x61 <= x <= 0x66 then Some(x - 0x61 + 10)
    else None
  }

  /**
    What follows a backslash: a letter for the quote, the backslash and the five control characters that
    have one, and `u00` with two lower-case digits for the other control characters.
   */
  function StrictEscape(b: Bytes): (r: Parsed<char>)
    ensures r.Some? ==> |r.value.1| < |b|
  {
    if b == [] then None
    else if b[0] == 0x22 then Some(('\"', b[1..]))
    else if b[0] == 0x5C then Some(('\\', b[1..]))
    else if b[0] == 0x62 then Some((0x08 as char, b[1..]))
    else if b[0] == 0x74 then Some((0x09 as char, b[1..]))
    else if b[0] == 0x6E then Some((0x0A as char, b[1..]))
    else if b[0] == 0x66 then Some((0x0C as char, b[1..]))
    else if b[0] == 0x72 then Some((0x0D as char, b[1..]))
    else if |b| >= 5 && b[..3] == [0x75, 0x30, 0x30] && b[3] in {0x30, 0x31} && LowerHex(b[4]).Some? then
      var n := (b[3] - 0x30) * 16 + LowerHex(b[4]).value;
      if n in {0x08, 0x09, 0x0A, 0x0C, 0x0D} then None else Some((n as char, b[5..]))
    else None
  }

  /** One character of a string: an escape, or UTF-8 of a character that needs none. */
  function StrictChar(b: Bytes): (r: Parsed<char>)
    ensures r.Some? ==> |r.value.1| < |b|
  {
    if b == [] || b[0] < 0x20 || b[0] == 0x22 then None
    else if b[0] == 0x5C then StrictEscape(b[1..])
    else match DecodeChar(b)
      case None => None
      case Some((c, n)) => Some((c, b[n..]))
  }

  function StrictTail(b: Bytes): (r: Parsed<string>)
    ensures r.Some? ==> |r.value.1| < |b|
    decreases |b|
  {
    if b == [] then None
    else if b[0] == 0x22 then Some(([], b[1..]))
    else match StrictChar(b)
      case None => None
      case Some((c, rest)) =>
        match StrictTail(rest)
        case None => None
        case Some((s, rest')) => Some(([c] + s, rest'))
  }

  function StrictString(b: Bytes): (r: Parsed<string>)
    ensures r.Some? ==> |r.value.1| < |b|
  {
    if b == [] || b[0] != 0x22 then None else StrictTail(b[1..])
  }

  /** An integer of section 6 of RFC 8259, without fraction or exponent, of magnitude below 2^53, and not -0. */
  function StrictNumber(b: Bytes): (r: Parsed<int>)
    ensures r.Some? ==> |r.value.1| < |b|
  {
    match ParseNumber(b)
    case None => None
    case Some((i, rest)) =>
      if -9007199254740991 <= i <= 9007199254740991 && !(i == 0 && b[0] == 0x2D) then Some((i, rest)) else None
  }

  ghost function StrictValue(b: Bytes): (r: Parsed<Value>)
    ensures r.Some? ==> |r.value.1| < |b|
    decreases |b|, 0
  {
    if b == [] then None
    else if b[0] == 0x6E then ParseLiteral(b, [0x6E, 0x75, 0x6C, 0x6C], Null)
    else if b[0] == 0x74 then ParseLiteral(b, [0x74, 0x72, 0x75, 0x65], Bool(true))
    else if b[0] == 0x66 then ParseLiteral(b, [0x66, 0x61, 0x6C, 0x73, 0x65], Bool(false))
    else if b[0] == 0x22 then
      match StrictString(b)
      case None => None
      case Some((s, rest)) => Some((Str(s), rest))
    else if b[0] == 0x5B then StrictArray(b[1..])
    else if b[0] == 0x7B then StrictObject(b[1..])
    else
      match StrictNumber(b)
      case None => None
      case Some((i, rest)) => Some((Num(Integral(i)), rest))
  }

  /** What follows `[`. */
  ghost function StrictArray(b: Bytes): (r: Parsed<Value>)
    ensures r.Some? ==> |r.value.1| < |b|
    decreases |b|, 3
  {
    if b != [] && b[0] == 0x5D then Some((Arr([]), b[1..]))
    else match StrictItems(b)
      case None => None
      case Some((items, rest)) => Some((Arr(items), rest))
  }

  /** What follows `{`; the keys must increase. */
  ghost function StrictObject(b: Bytes): (r: Parsed<Value>)
    ensures r.Some? ==> |r.value.1| < |b|
    decreases |b|, 3
  {
    if b != [] && b[0] == 0x7D then Some((Obj(map[]), b[1..]))
    else match StrictMembers(b)
      case None => None
      case Some((entries, rest)) => if KeysIncrease(entries) then Some((Obj(MapOf(entries)), rest)) else None
  }

  ghost function StrictItems(b: Bytes): (r: Parsed<seq<Value>>)
    ensures r.Some? ==> |r.value.1| < |b| && r.value.0 != []
    decreases |b|, 1
  {
    match StrictValue(b)
    case None => None
    case Some((v, rest)) =>
      if rest != [] && rest[0] == 0x5D then Some(([v], rest[1..]))
      else if rest != [] && rest[0] == 0x2C then
        match StrictItems(rest[1..])
        case None => None
        case Some((items, rest')) => Some(([v] + items, rest'))
      else None
  }

  ghost function StrictMember(b: Bytes): (r: Parsed<(string, Value)>)
    ensures r.Some? ==> |r.value.1| < |b|
    decreases |b|, 1
  {
    match StrictString(b)
    case None => None
    case Some((k, rest)) =>
      if rest == [] || rest[0] != 0x3A then None
      else match StrictValue(rest[1..])
        case None => None
        case Some((v, rest')) => Some(((k, v), rest'))
  }

  ghost function StrictMembers(b: Bytes): (r: Parsed<seq<(string, Value)>>)
    ensures r.Some? ==> |r.value.1| < |b| && r.value.0 != []
    decreases |b|, 2
  {
    match StrictMember(b)
    case None => None
    case Some((e, rest)) =>
      if rest != [] && rest[0] == 0x7D then Some(([e], rest[1..]))
      else if rest != [] && rest[0] == 0x2C then
        match StrictMembers(rest[1..])
        case None => None
        case Some((entries, rest')) => Some(([e] + entries, rest'))
      else None
  }

  /** Every key comes before all later ones, compared byte by byte in UTF-8. */
  ghost predicate KeysIncrease(entries: seq<(string, Value)>) {
    forall i, j {:trigger entries[i], entries[j]} ::
      0 <= i < j < |entries| ==> LexLess(Utf8.Encode(entries[i].0), Utf8.Encode(entries[j].0))
  }

  function MapOf(entries: seq<(string, Value)>): map<string, Value> {
    if entries == [] then map[] else map[entries[0].0 := entries[0].1] + MapOf(entries[1..])
  }

  /** The whole text is a canonical value. */
  ghost predicate IsCanonical(b: Bytes) {
    StrictValue(b).Some? && StrictValue(b).value.1 == []
  }

  // ---------------------------------------------------------------- tokens of the grammar are printed tokens

  lemma EncodeDecodedChar(b: Bytes)
    requires DecodeChar(b).Some?
    ensures var (c, n) := DecodeChar(b).value; n <= |b| && b[..n] == EncodeChar(c)
  {
    var (c, n) := DecodeChar(b).value;
    var e := EncodeChar(c);
    assert |e| == n;
    assert e[0] == b[0];
    assert n > 1 ==> e[1] == b[1];
    assert n > 2 ==> e[2] == b[2];
    assert n > 3 ==> e[3] == b[3];
  }

  lemma StrictCharPrinted(b: Bytes)
    requires StrictChar(b).Some?
    ensures var (c, rest) := StrictChar(b).value; b == EscapeChar(c) + rest
  {
    if b[0] == 0x5C {
      StrictEscapePrinted(b[1..]);
      assert b == [0x5C] + b[1..];
    } else {
      EncodeDecodedChar(b);
      var (c, n) := DecodeChar(b).value;
      assert b == b[..n] + b[n..];
      assert EncodeChar(c)[0] == b[0];
    }
  }

  lemma StrictEscapePrinted(b: Bytes)
    requires StrictEscape(b).Some?
    ensures var (c, rest) := StrictEscape(b).value; [0x5C] + b == EscapeChar(c) + rest
  {
    var (c, rest) := StrictEscape(b).value;
    var n := c as int;
    if b[0] in {0x22, 0x5C, 0x62, 0x74, 0x6E, 0x66, 0x72} {
      assert b == [b[0]] + rest;
      assert [0x5C] + ([b[0]] + rest) == [0x5C, b[0]] + rest;
    } else {
      assert n / 16 == b[3] - 0x30 && n % 16 == LowerHex(b[4]).value;
      assert HexDigit(n / 16) == b[3] && HexDigit(n % 16) == b[4];
      assert b[..3][0] == b[0] && b[..3][1] == b[1] && b[..3][2] == b[2];
      assert b == [0x75, 0x30, 0x30, b[3], b[4]] + rest;
      assert [0x5C] + ([0x75, 0x30, 0x30, b[3], b[4]] + rest) == [0x5C, 0x75, 0x30, 0x30, b[3], b[4]] + rest;
    }
  }

  lemma {:induction false} StrictTailPrinted(b: Bytes)
    requires StrictTail(b).Some?
    ensures var (s, rest) := StrictTail(b).value; b == EscapeAll(s) + [0x22] + rest
    decreases |b|
  {
    if b[0] == 0x22 {
      assert b == [0x22] + b[1..];
      assert [] + [0x22] + b[1..] == [0x22] + b[1..];
    } else {
      StrictCharPrinted(b);
      var (c, next) := StrictChar(b).value;
      StrictTailPrinted(next);
      var (s, rest) := StrictTail(next).value;
      EscapeCons(c, s, rest);
    }
  }

  lemma EscapeCons(c: char, s: string, rest: Bytes)
    ensures EscapeAll([c] + s) + [0x22] + rest == EscapeChar(c) + (EscapeAll(s) + [0x22] + rest)
  {
    assert ([c] + s)[1..] == s;
  }

  lemma StrictStringPrinted(b: Bytes)
    requires StrictString(b).Some?
    ensures var (s, rest) := StrictString(b).value; b == EncodeString(s) + rest
  {
    StrictTailPrinted(b[1..]);
    var (s, rest) := StrictString(b).value;
    assert b == [0x22] + b[1..];
    assert [0x22] + (EscapeAll(s) + [0x22] + rest) == [0x22] + EscapeAll(s) + [0x22] + rest;
  }

  lemma {:induction false} DigitsPrinted(b: Bytes, acc: nat)
    requires acc > 0
    ensures var (n, rest) := ParseDigits(b, acc); n > 0 && Digits(acc) + b == Digits(n) + rest
    decreases |b|
  {
    if b != [] && IsDigit(b[0]) {
      var next := acc * 10 + (b[0] - 0x30);
      DigitsPrinted(b[1..], next);
      assert Digits(next) == Digits(acc) + [b[0]];
      assert b == [b[0]] + b[1..];
      assert Digits(acc) + b == Digits(next) + b[1..];
    }
  }

  lemma NaturalPrinted(b: Bytes)
    requires ParseNatural(b).Some?
    ensures var (n, rest) := ParseNatural(b).value; b == Digits(n) + rest
  {
    assert b == [b[0]] + b[1..];
    if b[0] != 0x30 {
      var d := b[0] - 0x30;
      assert Digits(d) == [0x30 + d];
      DigitsPrinted(b[1..], d);
    }
  }

  lemma StrictNumberPrinted(b: Bytes)
    requires StrictNumber(b).Some?
    ensures var (i, rest) := StrictNumber(b).value; b == EncodeInteger(i) + rest
  {
    var (i, rest) := StrictNumber(b).value;
    if b[0] == 0x2D {
      NaturalPrinted(b[1..]);
      assert b == [0x2D] + b[1..];
      assert [0x2D] + (Digits(-i) + rest) == [0x2D] + Digits(-i) + rest;
    } else {
      NaturalPrinted(b);
    }
  }

  // ---------------------------------------------------------------- every text of the grammar is printed

  /** A text of the grammar is the encoding of its value, followed by the rest. */
  lemma {:induction false} StrictPrinted(b: Bytes)
    requires StrictValue(b).Some?
    ensures var (v, rest) := StrictValue(b).value;
            EncodeCanonical(v).Ok? && b == EncodeCanonical(v).value + rest
    decreases |b|, 0
  {
    var (v, rest) := StrictValue(b).value;
    if b[0] in {0x6E, 0x74, 0x66} {
      var n := |EncodeCanonical(v).value|;
      assert b == b[..n] + b[n..];
    } else if b[0] == 0x22 {
      StrictStringPrinted(b);
    } else if b[0] == 0x5B {
      StrictArrayPrinted(b[1..]);
      assert b == [0x5B] + b[1..];
    } else if b[0] == 0x7B {
      StrictObjectPrinted(b[1..]);
      assert b == [0x7B] + b[1..];
    } else {
      StrictNumberPrinted(b);
    }
  }

  lemma Between(open: Byte, e: Bytes, close: Byte, rest: Bytes)
    ensures [open] + (e + [close] + rest) == [open] + e + [close] + rest
  {
  }

  lemma StrictArrayPrinted(b: Bytes)
    requires StrictArray(b).Some?
    ensures var (v, rest) := StrictArray(b).value;
            EncodeCanonical(v).Ok? && [0x5B] + b == EncodeCanonical(v).value + rest
    decreases |b|, 3
  {
    var (v, rest) := StrictArray(b).value;
    if b != [] && b[0] == 0x5D {
      assert b == [] + [0x5D] + rest;
    } else {
      StrictItemsPrinted(b);
    }
    Between(0x5B, EncodeItems(v.items).value, 0x5D, rest);
  }

  lemma {:induction false} StrictItemsPrinted(b: Bytes)
    requires StrictItems(b).Some?
    ensures var (items, rest) := StrictItems(b).value;
            EncodeItems(items).Ok? && b == EncodeItems(items).value + [0x5D] + rest
    decreases |b|, 1
  {
    StrictPrinted(b);
    var (v, next) := StrictValue(b).value;
    var (items, rest) := StrictItems(b).value;
    assert next == [next[0]] + next[1..];
    if next[0] == 0x2C {
      StrictItemsPrinted(next[1..]);
      ItemsCons(v, StrictItems(next[1..]).value.0, EncodeCanonical(v).value, rest);
    } else {
      assert items == [v];
    }
  }

  lemma ItemsCons(v: Value, items: seq<Value>, e: Bytes, rest: Bytes)
    requires items != [] && EncodeItems(items).Ok? && EncodeCanonical(v) == Ok(e)
    ensures EncodeItems([v] + items).Ok?
    ensures EncodeItems([v] + items).value + [0x5D] + rest == e + ([0x2C] + (EncodeItems(items).value + [0x5D] + rest))
  {
    assert ([v] + items)[1..] == items;
  }

  lemma StrictObjectPrinted(b: Bytes)
    requires StrictObject(b).Some?
    ensures var (v, rest) := StrictObject(b).value;
            EncodeCanonical(v).Ok? && [0x7B] + b == EncodeCanonical(v).value + rest
    decreases |b|, 3
  {
    var (v, rest) := StrictObject(b).value;
    if b != [] && b[0] == 0x7D {
      EmptyObject();
      assert b == [0x7D] + rest;
    } else {
      var entries := StrictMembers(b).value.0;
      MapOfSorted(entries);
      StrictMembersPrinted(b, v);
      Braces(v, KeysOf(entries), b, rest);
    }
  }

  lemma EmptyObject()
    ensures EncodeCanonical(Obj(map[])) == Ok([0x7B, 0x7D])
  {
    var v := Obj(map[]);
    NonemptySorting({}, ByBytes, SortKeys(v.fields.Keys, ByBytes));
    assert [0x7B] + [] + [0x7D] == [0x7B, 0x7D];
  }

  lemma Braces(v: Value, ks: seq<string>, b: Bytes, rest: Bytes)
    requires v.Obj? && ks == SortKeys(v.fields.Keys, ByBytes) && EncodeMembers(v, ks).Ok?
    requires b == EncodeMembers(v, ks).value + [0x7D] + rest
    ensures EncodeCanonical(v).Ok? && [0x7B] + b == EncodeCanonical(v).value + rest
  {
    Between(0x7B, EncodeMembers(v, ks).value, 0x7D, rest);
  }

  function KeysOf(entries: seq<(string, Value)>): (ks: seq<string>)
    ensures |ks| == |entries|
  {
    seq(|entries|, i requires 0 <= i < |entries| => entries[i].0)
  }

  /** The object has these members, among others. */
  ghost predicate Holds(v: Value, entries: seq<(string, Value)>) {
    v.Obj? && forall i :: 0 <= i < |entries| ==> entries[i].0 in v.fields && v.fields[entries[i].0] == entries[i].1
  }

  /** Members with increasing keys are the map's members in the order of its sorted keys. */
  lemma MapOfSorted(entries: seq<(string, Value)>)
    requires KeysIncrease(entries)
    ensures Holds(Obj(MapOf(entries)), entries)
    ensures KeysOf(entries) == SortKeys(MapOf(entries).Keys, ByBytes)
  {
    MapOfHolds(entries);
    var ks := KeysOf(entries);
    forall i, j | 0 <= i < j < |ks| ensures ByBytes.Less(ks[i], ks[j]) {
      assert LexLess(Utf8.Encode(entries[i].0), Utf8.Encode(entries[j].0));
    }
    SortKeysUnique(MapOf(entries).Keys, ByBytes, ks);
  }

  lemma {:induction false} MapOfHolds(entries: seq<(string, Value)>)
    requires KeysIncrease(entries)
    ensures Holds(Obj(MapOf(entries)), entries)
    ensures forall k :: k in MapOf(entries) <==> k in KeysOf(entries)
  {
    if entries != [] {
      var e, tail := entries[0], entries[1..];
      assert entries == [e] + tail;
      assert KeysIncrease(tail);
      MapOfHolds(tail);
      FirstKeyIsNew(e, tail);
      MapOfCons(e, tail);
    }
  }

  lemma FirstKeyIsNew(e: (string, Value), tail: seq<(string, Value)>)
    requires KeysIncrease([e] + tail)
    ensures e.0 !in KeysOf(tail)
  {
    var entries := [e] + tail;
    forall i | 0 <= i < |tail| ensures tail[i].0 != e.0 {
      assert entries[i + 1] == tail[i];
      assert LexLess(Utf8.Encode(entries[0].0), Utf8.Encode(entries[i + 1].0));
      LexTrichotomy(Utf8.Encode(e.0), Utf8.Encode(e.0));
    }
  }

  lemma MapOfCons(e: (string, Value), tail: seq<(string, Value)>)
    requires Holds(Obj(MapOf(tail)), tail) && e.0 !in KeysOf(tail)
    requires forall k :: k in MapOf(tail) <==> k in KeysOf(tail)
    ensures Holds(Obj(MapOf([e] + tail)), [e] + tail)
    ensures forall k :: k in MapOf([e] + tail) <==> k in KeysOf([e] + tail)
  {
    var entries := [e] + tail;
    assert entries[1..] == tail;
    assert KeysOf(entries) == [e.0] + KeysOf(tail);
    forall i | 0 <= i < |entries|
      ensures entries[i].0 in MapOf(entries) && MapOf(entries)[entries[i].0] == entries[i].1
    {
      if i > 0 {
        assert entries[i] == tail[i - 1] && tail[i - 1].0 in KeysOf(tail);
      }
    }
  }

  lemma HoldsCons(v: Value, e: (string, Value), tail: seq<(string, Value)>)
    requires Holds(v, [e] + tail)
    ensures Holds(v, tail) && KeysOf([e] + tail) == [e.0] + KeysOf(tail)
  {
    var entries := [e] + tail;
    forall i | 0 <= i < |tail| ensures tail[i].0 in v.fields && v.fields[tail[i].0] == tail[i].1 {
      assert tail[i] == entries[i + 1];
    }
  }

  lemma {:induction false} StrictMembersPrinted(b: Bytes, v: Value)
    requires StrictMembers(b).Some? && Holds(v, StrictMembers(b).value.0)
    ensures var (entries, rest) := StrictMembers(b).value;
            && (forall k :: k in KeysOf(entries) ==> k in v.fields)
            && EncodeMembers(v, KeysOf(entries)).Ok? && b == EncodeMembers(v, KeysOf(entries)).value + [0x7D] + rest
    decreases |b|, 2
  {
    var (entries, rest) := StrictMembers(b).value;
    var (e, next) := StrictMember(b).value;
    assert entries[0] == e;
    StrictMemberPrinted(b, v);
    assert next == [next[0]] + next[1..];
    if next[0] == 0x2C {
      var tail := StrictMembers(next[1..]).value.0;
      assert entries == [e] + tail;
      HoldsCons(v, e, tail);
      StrictMembersPrinted(next[1..], v);
      MembersCons(v, e.0, KeysOf(tail), EncodeMember(v, e.0).value, rest);
    } else {
      assert KeysOf(entries) == [e.0];
    }
  }

  lemma MembersCons(v: Value, k: string, ks: seq<string>, e: Bytes, rest: Bytes)
    requires v.Obj? && k in v.fields && ks != [] && forall x :: x in ks ==> x in v.fields
    requires EncodeMembers(v, ks).Ok? && EncodeMember(v, k) == Ok(e)
    ensures EncodeMembers(v, [k] + ks).Ok?
    ensures EncodeMembers(v, [k] + ks).value + [0x7D] + rest
            == e + ([0x2C] + (EncodeMembers(v, ks).value + [0x7D] + rest))
  {
    assert ([k] + ks)[1..] == ks;
  }

  lemma StrictMemberPrinted(b: Bytes, v: Value)
    requires StrictMember(b).Some? && Holds(v, [StrictMember(b).value.0])
    ensures var (e, rest) := StrictMember(b).value;
            e.0 in v.fields && EncodeMember(v, e.0).Ok? && b == EncodeMember(v, e.0).value + rest
    decreases |b|, 1
  {
    var (e, rest) := StrictMember(b).value;
    assert [e][0] == e;
    StrictStringPrinted(b);
    var next := StrictString(b).value.1;
    assert next == [0x3A] + next[1..];
    StrictPrinted(next[1..]);
    KeyJoined(EncodeString(e.0), EncodeCanonical(e.1).value, rest);
  }

  lemma KeyJoined(k: Bytes, x: Bytes, rest: Bytes)
    ensures k + ([0x3A] + (x + rest)) == k + [0x3A] + x + rest
  {
  }

  // ---------------------------------------------------------------- every encoding is a text of the grammar

  lemma StrictCharReadBack(c: char, rest: Bytes)
    ensures StrictChar(EscapeChar(c) + rest) == Some((c, rest))
    ensures EscapeChar(c)[0] != 0x22
  {
    var e := EscapeChar(c);
    var b := e + rest;
    var n := c as int;
    assert b[0] == e[0];
    if n < 0x20 || c == '\"' || c == '\\' {
      assert b[1..] == e[1..] + rest;
      if |e| == 6 {
        assert e[1..] == [0x75, 0x30, 0x30, HexDigit(n / 16), HexDigit(n % 16)];
        assert b[1..][..3] == [0x75, 0x30, 0x30] && b[1..][5..] == rest;
        assert n / 16 in {0, 1};
        assert LowerHex(HexDigit(n % 16)) == Some(n % 16);
      } else {
        assert e[1..] == [e[1]] && b[1..] == [e[1]] + rest;
        assert ([e[1]] + rest)[1..] == rest;
      }
    } else {
      DecodeEncodedChar(c, rest);
      assert b[|e|..] == rest;
    }
  }

  lemma {:induction false} StrictTailReadBack(s: string, rest: Bytes)
    ensures StrictTail(EscapeAll(s) + [0x22] + rest) == Some((s, rest))
  {
    if s == [] {
      assert [] + [0x22] + rest == [0x22] + rest;
      assert ([0x22] + rest)[1..] == rest;
    } else {
      var tail := EscapeAll(s[1..]) + [0x22] + rest;
      assert EscapeAll(s) + [0x22] + rest == EscapeChar(s[0]) + tail;
      StrictCharReadBack(s[0], tail);
      StrictTailReadBack(s[1..], rest);
      assert s == [s[0]] + s[1..];
    }
  }

  lemma StrictStringReadBack(s: string, rest: Bytes)
    ensures StrictString(EncodeString(s) + rest) == Some((s, rest))
    ensures StrictValue(EncodeString(s) + rest) == Some((Str(s), rest))
  {
    assert (EncodeString(s) + rest)[1..] == EscapeAll(s) + [0x22] + rest;
    StrictTailReadBack(s, rest);
  }

  lemma StrictNumberReadBack(i: int, rest: Bytes)
    requires -9007199254740991 <= i <= 9007199254740991 && Delimited(rest)
    ensures StrictValue(EncodeInteger(i) + rest) == Some((Num(Integral(i)), rest))
  {
    var b := EncodeInteger(i) + rest;
    NumberReadBack(i, rest);
    assert b[0] == EncodeInteger(i)[0];
    assert Digits(if i < 0 then -i else i)[0] in Digits(if i < 0 then -i else i);
  }

  lemma StrictLiteralReadBack(v: Value, rest: Bytes)
    requires v.Null? || v.Bool?
    ensures StrictValue(EncodeCanonical(v).value + rest) == Some((v, rest))
  {
    var e := EncodeCanonical(v).value;
    var b := e + rest;
    assert b[..|e|] == e && b[|e|..] == rest;
  }

  /** The grammar reads a value back from its encoding, whatever delimiter follows. */
  lemma {:induction false} StrictReadBack(v: Value, rest: Bytes)
    requires EncodeCanonical(v).Ok? && Delimited(rest)
    ensures StrictValue(EncodeCanonical(v).value + rest) == Some((v, rest))
    decreases v, 1, 0
  {
    match v {
      case Null => StrictLiteralReadBack(v, rest);
      case Bool(_) => StrictLiteralReadBack(v, rest);
      case Num(n) => StrictNumberReadBack(n.i, rest);
      case Str(s) => StrictStringReadBack(s, rest);
      case Arr(items) => StrictArrayReadBack(items, rest);
      case Obj(fields) => StrictObjectReadBack(v, rest);
    }
  }

  lemma StrictArrayReadBack(items: seq<Value>, rest: Bytes)
    requires EncodeItems(items).Ok? && Delimited(rest)
    ensures StrictValue(EncodeCanonical(Arr(items)).value + rest) == Some((Arr(items), rest))
    decreases items, 0, |items| + 1
  {
    var e := EncodeItems(items).value;
    AfterOpen(0x5B, e, 0x5D, rest);
    if items == [] {
      assert e + [0x5D] + rest == [0x5D] + rest;
      assert ([0x5D] + rest)[1..] == rest;
    } else {
      EncodingStart(items[0]);
      assert (e + [0x5D] + rest)[0] == EncodeCanonical(items[0]).value[0];
      StrictItemsReadBack(items, rest);
    }
  }

  lemma {:induction false} StrictItemsReadBack(items: seq<Value>, rest: Bytes)
    requires items != [] && EncodeItems(items).Ok? && Delimited(rest)
    ensures StrictItems(EncodeItems(items).value + [0x5D] + rest) == Some((items, rest))
    decreases items, 0, |items|
  {
    var first := EncodeCanonical(items[0]).value;
    var b := EncodeItems(items).value + [0x5D] + rest;
    if |items| == 1 {
      var next := [0x5D] + rest;
      assert b == first + next;
      StrictReadBack(items[0], next);
      assert next[1..] == rest && items == [items[0]];
    } else {
      var others := EncodeItems(items[1..]).value + [0x5D] + rest;
      var next := [0x2C] + others;
      assert b == first + next;
      StrictReadBack(items[0], next);
      assert next[1..] == others;
      StrictItemsReadBack(items[1..], rest);
      assert items == [items[0]] + items[1..];
    }
  }

  /** The members of the object at the given keys, in that order. */
  function EntriesOf(v: Value, ks: seq<string>): (entries: seq<(string, Value)>)
    requires v.Obj? && forall k :: k in ks ==> k in v.fields
    ensures |entries| == |ks|
  {
    if ks == [] then [] else [(ks[0], v.fields[ks[0]])] + EntriesOf(v, ks[1..])
  }

  lemma {:induction false} EntriesOfAt(v: Value, ks: seq<string>, i: nat)
    requires v.Obj? && (forall k :: k in ks ==> k in v.fields) && i < |ks|
    ensures EntriesOf(v, ks)[i] == (ks[i], v.fields[ks[i]])
  {
    if i > 0 {
      EntriesOfAt(v, ks[1..], i - 1);
    }
  }

  lemma EntriesIncrease(v: Value)
    requires v.Obj?
    ensures KeysIncrease(EntriesOf(v, SortKeys(v.fields.Keys, ByBytes)))
  {
    var ks := SortKeys(v.fields.Keys, ByBytes);
    var entries := EntriesOf(v, ks);
    forall i, j | 0 <= i < j < |entries|
      ensures LexLess(Utf8.Encode(entries[i].0), Utf8.Encode(entries[j].0))
    {
      EntriesOfAt(v, ks, i);
      EntriesOfAt(v, ks, j);
      assert ByBytes.Less(ks[i], ks[j]);
    }
  }

  lemma {:induction false} MapOfEntries(v: Value, ks: seq<string>)
    requires v.Obj? && forall k :: k in ks ==> k in v.fields
    ensures MapOf(EntriesOf(v, ks)) == FieldsOf(v, ks)
  {
    if ks != [] {
      MapOfEntries(v, ks[1..]);
      FieldsOfCons(v, ks);
      assert EntriesOf(v, ks)[1..] == EntriesOf(v, ks[1..]);
    }
  }

  lemma StrictObjectReadBack(v: Value, rest: Bytes)
    requires v.Obj? && EncodeCanonical(v).Ok? && Delimited(rest)
    ensures StrictValue(EncodeCanonical(v).value + rest) == Some((v, rest))
    decreases v, 0, |SortKeys(v.fields.Keys, ByBytes)| + 3
  {
    AfterOpen(0x7B, EncodeMembers(v, SortKeys(v.fields.Keys, ByBytes)).value, 0x7D, rest);
    StrictObjectTail(v, rest);
  }

  lemma StrictObjectTail(v: Value, rest: Bytes)
    requires v.Obj? && EncodeCanonical(v).Ok? && Delimited(rest)
    ensures StrictObject(EncodeMembers(v, SortKeys(v.fields.Keys, ByBytes)).value + [0x7D] + rest) == Some((v, rest))
    decreases v, 0, |SortKeys(v.fields.Keys, ByBytes)| + 2
  {
    var ks := SortKeys(v.fields.Keys, ByBytes);
    var e := EncodeMembers(v, ks).value;
    NonemptySorting(v.fields.Keys, ByBytes, ks);
    if ks == [] {
      assert e + [0x7D] + rest == [0x7D] + rest;
      assert ([0x7D] + rest)[1..] == rest;
      assert v.fields == map[];
    } else {
      MembersStart(v, ks);
      assert (e + [0x7D] + rest)[0] == 0x22;
      StrictMembersReadBack(v, ks, rest);
      EntriesIncrease(v);
      MapOfEntries(v, ks);
      assert v.fields == FieldsOf(v, ks);
    }
  }

  lemma StrictMemberReadBack(v: Value, k: string, rest: Bytes)
    requires v.Obj? && k in v.fields && EncodeMember(v, k).Ok? && Delimited(rest)
    ensures StrictMember(EncodeMember(v, k).value + rest) == Some(((k, v.fields[k]), rest))
    decreases v, 0, 0
  {
    var e := EncodeCanonical(v.fields[k]).value;
    var next := [0x3A] + (e + rest);
    assert EncodeMember(v, k).value + rest == EncodeString(k) + next;
    StrictStringReadBack(k, next);
    assert next[1..] == e + rest;
    StrictReadBack(v.fields[k], rest);
  }

  lemma {:induction false} StrictMembersReadBack(v: Value, ks: seq<string>, rest: Bytes)
    requires v.Obj? && ks != [] && forall k :: k in ks ==> k in v.fields
    requires EncodeMembers(v, ks).Ok? && Delimited(rest)
    ensures StrictMembers(EncodeMembers(v, ks).value + [0x7D] + rest) == Some((EntriesOf(v, ks), rest))
    decreases v, 0, |ks| + 1
  {
    var first := EncodeMember(v, ks[0]).value;
    var b := EncodeMembers(v, ks).value + [0x7D] + rest;
    if |ks| == 1 {
      var next := [0x7D] + rest;
      assert b == first + next;
      StrictMemberReadBack(v, ks[0], next);
      assert next[1..] == rest;
      assert EntriesOf(v, ks) == [(ks[0], v.fields[ks[0]])];
    } else {
      var others := EncodeMembers(v, ks[1..]).value + [0x7D] + rest;
      var next := [0x2C] + others;
      assert b == first + next by {
        assert EncodeMembers(v, ks).value == first + [0x2C] + EncodeMembers(v, ks[1..]).value;
      }
      StrictMemberReadBack(v, ks[0], next);
      StrictMembersReadBack(v, ks[1..], rest);
      assert next[1..] == others;
    }
  }

  // ---------------------------------------------------------------- main result

  /**
    A text is canonical exactly when it is the encoding of some value, and that value is the one the
    grammar reads.
   */
  lemma CanonicalIff(b: Bytes)
    ensures IsCanonical(b) <==> exists v :: EncodeCanonical(v) == Ok(b)
    ensures forall v :: EncodeCanonical(v) == Ok(b) <==> StrictValue(b) == Some((v, []))
  {
    if IsCanonical(b) {
      StrictPrinted(b);
      var (v, rest) := StrictValue(b).value;
      assert EncodeCanonical(v).value + rest == EncodeCanonical(v).value;
      assert EncodeCanonical(v) == Ok(b);
    }
    forall v ensures EncodeCanonical(v) == Ok(b) <==> StrictValue(b) == Some((v, [])) {
      if EncodeCanonical(v) == Ok(b) {
        assert b + [] == b;
        StrictReadBack(v, []);
      }
    }
  }
}
