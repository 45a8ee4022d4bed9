/**
  The TypeScript and Python canonical encoders, and when they print the same bytes as the
  command-line tool.

  Both work on strings and encode to UTF-8 at the end; TypeScript sorts keys by code point,
  Python by UTF-8 bytes after a classification pass over insertion-ordered dictionaries.
  Unicode NFC is a parameter `nfc`: TypeScript applies it to strings and keys, Python to
  strings only, the command-line tool to neither.
 */
module CanonicalPorts {
  import opened Utf8
  import opened Canonical
  import opened Numerals
  import opened UniqueDecoding

  // ---------------------------------------------------------------- text of scalars

  function EscapeText(c: char): string {
    if c == '\"' then ['\\', '\"']
    else if c == '\\' then ['\\', '\\']
    else if c as int == 0x08 then ['\\', 'b']
    else if c as int == 0x0C then ['\\', 'f']
    else if c == '\n' then ['\\', 'n']
    else if c == '\r' then ['\\', 'r']
    else if c == '\t' then ['\\', 't']
    else if c as int < 0x20 then
      ['\\', 'u', '0', '0', HexDigit(c as int / 16) as char, HexDigit(c as int % 16) as char]
    else [c]
  }

  function EscapeTextAll(s: string): string {
    if s == [] then [] else EscapeText(s[0]) + EscapeTextAll(s[1..])
  }

  function QuoteText(s: string): string {
    ['\"'] + EscapeTextAll(s) + ['\"']
  }

  /** Python's `_quote`: the literal is built in a loop. */
  method Quote(s: string) returns (out: string)
    ensures out == QuoteText(s)
  {
    out := ['\"'];
    var i := 0;
    assert s[0..] == s;
    while i < |s|
      invariant 0 <= i <= |s|
      invariant out + EscapeTextAll(s[i..]) == ['\"'] + EscapeTextAll(s)
    {
      assert s[i..][0] == s[i] && s[i..][1..] == s[i + 1..];
      out := out + EscapeText(s[i]);
      i := i + 1;
    }
    out := out + ['\"'];
  }

  lemma EncodeUnit(c: char)
    ensures Utf8.Encode([c]) == EncodeChar(c)
  {
    assert [c][1..] == [];
  }

  /** Text made of ASCII characters encodes character by character. */
  lemma {:induction false} EncodeAscii(s: string)
    requires forall i :: 0 <= i < |s| ==> s[i] as int < 0x80
    ensures Utf8.Encode(s) == CodePoints(s)
  {
    if s != [] {
      EncodeAscii(s[1..]);
      assert CodePoints(s) == [s[0] as int] + CodePoints(s[1..]);
    }
  }

  lemma {:induction false} EncodeDigits(n: nat)
    ensures Utf8.Encode(DigitsText(n)) == Digits(n)
  {
    if n >= 10 {
      EncodeDigits(n / 10);
      EncodeUnit((0x30 + n % 10) as char);
      EncodeConcat(DigitsText(n / 10), [(0x30 + n % 10) as char]);
    } else {
      EncodeUnit((0x30 + n) as char);
    }
  }

  lemma EncodeIntegerText(i: int)
    ensures Utf8.Encode(IntegerText(i)) == EncodeInteger(i)
  {
    EncodeDigits(if i < 0 then -i else i);
    if i < 0 {
      EncodeUnit('-');
      EncodeConcat("-", DigitsText(-i));
    }
  }

  lemma EncodeEscape(c: char)
    ensures Utf8.Encode(EscapeText(c)) == EscapeChar(c)
  {
    if c as int < 0x20 || c == '\"' || c == '\\' {
      EncodeAscii(EscapeText(c));
    } else {
      EncodeUnit(c);
    }
  }

  lemma {:induction false} EncodeEscapeAll(s: string)
    ensures Utf8.Encode(EscapeTextAll(s)) == EscapeAll(s)
  {
    if s != [] {
      EncodeEscape(s[0]);
      EncodeEscapeAll(s[1..]);
      EncodeConcat(EscapeText(s[0]), EscapeTextAll(s[1..]));
    }
  }

  lemma EncodeQuote(s: string)
    ensures Utf8.Encode(QuoteText(s)) == EncodeString(s)
  {
    EncodeUnit('\"');
    EncodeEscapeAll(s);
    EncodeConcat(['\"'], EscapeTextAll(s));
    EncodeConcat(['\"'] + EscapeTextAll(s), ['\"']);
  }

  // ---------------------------------------------------------------- TypeScript

  /** The comparator handed to `keys.sort`: first differing code point, then length. */
  method CompareKeys(a: string, b: string) returns (r: int)
    ensures r < 0 <==> ByCodePoints.Less(a, b)
    ensures r == 0 <==> a == b
  {
    var ac, bc := CodePoints(a), CodePoints(b);
    var len := if |ac| < |bc| then |ac| else |bc|;
    var i := 0;
    assert ac[0..] == ac && bc[0..] == bc;
    while i < len
      invariant 0 <= i <= len
      invariant ac[..i] == bc[..i]
      invariant LexLess(ac, bc) <==> LexLess(ac[i..], bc[i..])
    {
      assert ac[i..][1..] == ac[i + 1..] && bc[i..][1..] == bc[i + 1..];
      if ac[i] != bc[i] {
        assert a[i] != b[i];
        return ac[i] - bc[i];
      }
      i := i + 1;
    }
    if |ac| == |bc| {
      assert ac == bc;
      RankInjective(ByCodePoints, a, b);
    }
    return |ac| - |bc|;
  }

  /** `canonical`; `fraction` stands for `canonicalNumber` on numbers that are not integers. */
  ghost function TsCanonical(v: Value, nfc: string -> string, fraction: string -> string): string
    decreases v, 1, 0
  {
    match v
    case Null => "null"
    case Bool(b) => if b then "true" else "false"
    case Num(n) => if n.Integral? then IntegerText(n.i) else fraction(n.lexeme)
    case Str(s) => QuoteText(nfc(s))
    case Arr(items) => "[" + TsItems(items, nfc, fraction) + "]"
    case Obj(fields) => "{" + TsMembers(v, SortKeys(fields.Keys, ByCodePoints), nfc, fraction) + "}"
  }

  ghost function TsItems(items: seq<Value>, nfc: string -> string, fraction: string -> string): string
    decreases items, 0, |items|
  {
    if items == [] then "" else
    var first := TsCanonical(items[0], nfc, fraction);
    if |items| == 1 then first else first + "," + TsItems(items[1..], nfc, fraction)
  }

  ghost function TsMembers(v: Value, ks: seq<string>, nfc: string -> string, fraction: string -> string): string
    requires v.Obj? && forall k :: k in ks ==> k in v.fields
    decreases v, 0, |ks|
  {
    if ks == [] then "" else
    var first := QuoteText(nfc(ks[0])) + ":" + TsCanonical(v.fields[ks[0]], nfc, fraction);
    if |ks| == 1 then first else first + "," + TsMembers(v, ks[1..], nfc, fraction)
  }

  /** `canonicalBytes`. */
  ghost function TsBytes(v: Value, nfc: string -> string, fraction: string -> string): Bytes {
    Utf8.Encode(TsCanonical(v, nfc, fraction))
  }

  /** Every string of the value, keys included, is already in the normal form. */
  ghost predicate Normalized(v: Value, nfc: string -> string)
    decreases v, 1
  {
    match v
    case Str(s) => nfc(s) == s
    case Arr(items) => forall i :: 0 <= i < |items| ==> Normalized(items[i], nfc)
    case Obj(fields) => forall k :: k in fields ==> NormalizedMember(v, k, nfc)
    case _ => true
  }

  ghost predicate NormalizedMember(v: Value, k: string, nfc: string -> string)
    requires v.Obj? && k in v.fields
    decreases v, 0
  {
    nfc(k) == k && Normalized(v.fields[k], nfc)
  }

  lemma EncodeWords()
    ensures Utf8.Encode("null") == [0x6E, 0x75, 0x6C, 0x6C]
    ensures Utf8.Encode("true") == [0x74, 0x72, 0x75, 0x65]
    ensures Utf8.Encode("false") == [0x66, 0x61, 0x6C, 0x73, 0x65]
  {
    EncodeAscii("null");
    EncodeAscii("true");
    EncodeAscii("false");
  }

  lemma EncodeBetween(open: char, s: string, close: char)
    ensures Utf8.Encode([open] + s + [close]) == EncodeChar(open) + Utf8.Encode(s) + EncodeChar(close)
  {
    EncodeUnit(open);
    EncodeUnit(close);
    EncodeConcat([open], s);
    EncodeConcat([open] + s, [close]);
  }

  lemma EncodeJoin(s: string, c: char, t: string)
    ensures Utf8.Encode(s + [c] + t) == Utf8.Encode(s) + EncodeChar(c) + Utf8.Encode(t)
  {
    EncodeUnit(c);
    EncodeConcat(s, [c]);
    EncodeConcat(s + [c], t);
  }

  /**
    The heart of the comparison. Where the tool encodes `v`, the two texts, each followed by
    something, are equal exactly when `v` is normalized and what follows is equal.
   */
  lemma {:induction false} TsAgreement(v: Value, nfc: string -> string, fraction: string -> string, s1: Bytes,
                                       s2: Bytes)
    requires EncodeCanonical(v).Ok?
    ensures TsBytes(v, nfc, fraction) + s1 == EncodeCanonical(v).value + s2 <==> Normalized(v, nfc) && s1 == s2
    decreases v, 1, 0
  {
    var ts, rs := TsBytes(v, nfc, fraction), EncodeCanonical(v).value;
    match v {
      case Null => EncodeWords(); SamePrefix(ts, s1, s2);
      case Bool(_) => EncodeWords(); SamePrefix(ts, s1, s2);
      case Num(n) => EncodeIntegerText(n.i); SamePrefix(ts, s1, s2);
      case Str(s) =>
        EncodeQuote(nfc(s));
        StringsAgree(nfc(s), s, s1, s2);
      case Arr(items) =>
        var a, b := Utf8.Encode(TsItems(items, nfc, fraction)), EncodeItems(items).value;
        EncodeBetween('[', TsItems(items, nfc, fraction), ']');
        Bracketed(ts, 0x5B, a, 0x5D, s1, rs, b, s2);
        TsItemsAgreement(items, nfc, fraction, [0x5D] + s1, [0x5D] + s2);
      case Obj(fields) =>
        OrdersAgree(fields.Keys);
        var ks := SortKeys(fields.Keys, ByBytes);
        var a, b := Utf8.Encode(TsMembers(v, ks, nfc, fraction)), EncodeMembers(v, ks).value;
        EncodeBetween('{', TsMembers(v, ks, nfc, fraction), '}');
        Bracketed(ts, 0x7B, a, 0x7D, s1, rs, b, s2);
        TsMembersAgreement(v, ks, nfc, fraction, [0x7D] + s1, [0x7D] + s2);
    }
  }

  lemma SamePrefix(p: Bytes, s1: Bytes, s2: Bytes)
    ensures p + s1 == p + s2 <==> s1 == s2
  {
    assert (p + s1)[|p|..] == s1 && (p + s2)[|p|..] == s2;
  }

  lemma Joined(a: Bytes, c: Byte, b: Bytes, s: Bytes)
    ensures a + [c] + b + s == a + ([c] + (b + s))
  {
  }

  /** Two agreeing parts joined by a comma agree. */
  lemma JoinAgreement(a: Bytes, a': Bytes, s1: Bytes, b: Bytes, b': Bytes, s2: Bytes, n: bool, n': bool)
    requires a + ([0x2C] + (a' + s1)) == b + ([0x2C] + (b' + s2)) <==> n && [0x2C] + (a' + s1) == [0x2C] + (b' + s2)
    requires a' + s1 == b' + s2 <==> n' && s1 == s2
    ensures a + [0x2C] + a' + s1 == b + [0x2C] + b' + s2 <==> n && n' && s1 == s2
  {
    Joined(a, 0x2C, a', s1);
    Joined(b, 0x2C, b', s2);
    SamePrefix([0x2C], a' + s1, b' + s2);
  }

  lemma StringsAgree(t: string, s: string, s1: Bytes, s2: Bytes)
    ensures EncodeString(t) + s1 == EncodeString(s) + s2 <==> t == s && s1 == s2
  {
    StringReadBack(t, s1);
    StringReadBack(s, s2);
  }

  lemma Bracketed(ts: Bytes, open: Byte, a: Bytes, close: Byte, s1: Bytes, rs: Bytes, b: Bytes, s2: Bytes)
    requires ts == [open] + a + [close] && rs == [open] + b + [close]
    ensures ts + s1 == rs + s2 <==> a + ([close] + s1) == b + ([close] + s2)
    ensures [close] + s1 == [close] + s2 <==> s1 == s2
  {
    assert ts + s1 == [open] + (a + ([close] + s1));
    assert rs + s2 == [open] + (b + ([close] + s2));
    SamePrefix([open], a + ([close] + s1), b + ([close] + s2));
    SamePrefix([close], s1, s2);
  }

  lemma {:induction false} TsItemsAgreement(items: seq<Value>, nfc: string -> string, fraction: string -> string,
                                            s1: Bytes, s2: Bytes)
    requires EncodeItems(items).Ok?
    ensures Utf8.Encode(TsItems(items, nfc, fraction)) + s1 == EncodeItems(items).value + s2
            <==> s1 == s2 && forall i :: 0 <= i < |items| ==> Normalized(items[i], nfc)
    decreases items, 0, |items|
  {
    if items == [] {
      assert [] + s1 == s1 && [] + s2 == s2;
    } else if |items| == 1 {
      TsAgreement(items[0], nfc, fraction, s1, s2);
    } else {
      var a, b := TsBytes(items[0], nfc, fraction), EncodeCanonical(items[0]).value;
      var a', b' := Utf8.Encode(TsItems(items[1..], nfc, fraction)), EncodeItems(items[1..]).value;
      TsItemsCons(items, nfc, fraction);
      TsAgreement(items[0], nfc, fraction, [0x2C] + (a' + s1), [0x2C] + (b' + s2));
      TsItemsAgreement(items[1..], nfc, fraction, s1, s2);
      var tail := forall i :: 0 <= i < |items[1..]| ==> Normalized(items[1..][i], nfc);
      JoinAgreement(a, a', s1, b, b', s2, Normalized(items[0], nfc), tail);
      assert items == [items[0]] + items[1..];
    }
  }

  lemma TsItemsCons(items: seq<Value>, nfc: string -> string, fraction: string -> string)
    requires |items| > 1 && EncodeItems(items).Ok?
    ensures Utf8.Encode(TsItems(items, nfc, fraction))
            == TsBytes(items[0], nfc, fraction) + [0x2C] + Utf8.Encode(TsItems(items[1..], nfc, fraction))
    ensures EncodeItems(items).value == EncodeCanonical(items[0]).value + [0x2C] + EncodeItems(items[1..]).value
  {
    EncodeJoin(TsCanonical(items[0], nfc, fraction), ',', TsItems(items[1..], nfc, fraction));
  }

  lemma TsMemberAgreement(v: Value, k: string, nfc: string -> string, fraction: string -> string, s1: Bytes, s2: Bytes)
    requires v.Obj? && k in v.fields && EncodeMember(v, k).Ok?
    ensures Utf8.Encode(QuoteText(nfc(k)) + ":" + TsCanonical(v.fields[k], nfc, fraction)) + s1
            == EncodeMember(v, k).value + s2
            <==> s1 == s2 && NormalizedMember(v, k, nfc)
    decreases v, 0, 0
  {
    var a, b := TsBytes(v.fields[k], nfc, fraction), EncodeCanonical(v.fields[k]).value;
    EncodeJoin(QuoteText(nfc(k)), ':', TsCanonical(v.fields[k], nfc, fraction));
    EncodeQuote(nfc(k));
    Joined(EncodeString(nfc(k)), 0x3A, a, s1);
    Joined(EncodeString(k), 0x3A, b, s2);
    StringsAgree(nfc(k), k, [0x3A] + (a + s1), [0x3A] + (b + s2));
    SamePrefix([0x3A], a + s1, b + s2);
    TsAgreement(v.fields[k], nfc, fraction, s1, s2);
  }

  lemma TsMembersCons(v: Value, ks: seq<string>, nfc: string -> string, fraction: string -> string)
    requires v.Obj? && |ks| > 1 && (forall k :: k in ks ==> k in v.fields) && EncodeMembers(v, ks).Ok?
    ensures var first := QuoteText(nfc(ks[0])) + ":" + TsCanonical(v.fields[ks[0]], nfc, fraction);
            Utf8.Encode(TsMembers(v, ks, nfc, fraction))
            == Utf8.Encode(first) + [0x2C] + Utf8.Encode(TsMembers(v, ks[1..], nfc, fraction))
    ensures EncodeMembers(v, ks).value == EncodeMember(v, ks[0]).value + [0x2C] + EncodeMembers(v, ks[1..]).value
  {
    var first := QuoteText(nfc(ks[0])) + ":" + TsCanonical(v.fields[ks[0]], nfc, fraction);
    EncodeJoin(first, ',', TsMembers(v, ks[1..], nfc, fraction));
  }

  lemma {:induction false} TsMembersAgreement(v: Value, ks: seq<string>, nfc: string -> string,
                                              fraction: string -> string, s1: Bytes, s2: Bytes)
    requires v.Obj? && forall k :: k in ks ==> k in v.fields
    requires EncodeMembers(v, ks).Ok?
    ensures Utf8.Encode(TsMembers(v, ks, nfc, fraction)) + s1 == EncodeMembers(v, ks).value + s2
            <==> s1 == s2 && forall k :: k in ks ==> NormalizedMember(v, k, nfc)
    decreases v, 0, |ks| + 1
  {
    if ks == [] {
      assert [] + s1 == s1 && [] + s2 == s2;
    } else if |ks| == 1 {
      TsMemberAgreement(v, ks[0], nfc, fraction, s1, s2);
    } else {
      var first := QuoteText(nfc(ks[0])) + ":" + TsCanonical(v.fields[ks[0]], nfc, fraction);
      var a, b := Utf8.Encode(first), EncodeMember(v, ks[0]).value;
      var a', b' := Utf8.Encode(TsMembers(v, ks[1..], nfc, fraction)), EncodeMembers(v, ks[1..]).value;
      TsMembersCons(v, ks, nfc, fraction);
      TsMemberAgreement(v, ks[0], nfc, fraction, [0x2C] + (a' + s1), [0x2C] + (b' + s2));
      TsMembersAgreement(v, ks[1..], nfc, fraction, s1, s2);
      var tail := forall k :: k in ks[1..] ==> NormalizedMember(v, k, nfc);
      JoinAgreement(a, a', s1, b, b', s2, NormalizedMember(v, ks[0], nfc), tail);
      assert ks == [ks[0]] + ks[1..];
    }
  }

  /** Wherever the tool encodes at all, TypeScript prints the same bytes iff all strings are normalized. */
  lemma TypeScriptAgrees(v: Value, nfc: string -> string, fraction: string -> string)
    requires EncodeCanonical(v).Ok?
    ensures TsBytes(v, nfc, fraction) == EncodeCanonical(v).value <==> Normalized(v, nfc)
  {
    TsAgreement(v, nfc, fraction, [], []);
    assert TsBytes(v, nfc, fraction) + [] == TsBytes(v, nfc, fraction);
    assert EncodeCanonical(v).value + [] == EncodeCanonical(v).value;
  }

  /**
    Where the tool refuses a number, TypeScript prints it: integers of any size by their digits, and others by
    `fraction`. Strings and keys are printed in the normal form.
   */
  lemma TypeScriptScalars(i: int, lexeme: string, s: string, nfc: string -> string, fraction: string -> string)
    ensures TsBytes(Num(Integral(i)), nfc, fraction) == EncodeInteger(i)
    ensures TsBytes(Num(Fractional(lexeme)), nfc, fraction) == Utf8.Encode(fraction(lexeme))
    ensures TsBytes(Str(s), nfc, fraction) == EncodeString(nfc(s))
    ensures TsBytes(Obj(map[s := Null]), nfc, fraction)
            == [0x7B] + (EncodeString(nfc(s)) + [0x3A] + [0x6E, 0x75, 0x6C, 0x6C]) + [0x7D]
  {
    EncodeIntegerText(i);
    EncodeQuote(nfc(s));
    var v := Obj(map[s := Null]);
    var ks := [s];
    assert forall k :: k in v.fields.Keys <==> k in ks;
    SortKeysUnique(v.fields.Keys, ByCodePoints, ks);
    var text := QuoteText(nfc(s)) + ":" + "null";
    assert TsMembers(v, ks, nfc, fraction) == text;
    EncodeBetween('{', text, '}');
    EncodeJoin(QuoteText(nfc(s)), ':', "null");
    EncodeWords();
  }
}
