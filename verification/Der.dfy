/**
  The hand-written DER encoder for ECDSA signatures, against a strict decoder written to
  sections 8.1.3, 8.3 and 10.1 of X.690.
 */
module Der {
  import opened Utf8

  // ---------------------------------------------------------------- big-endian numbers

  function Pow256(n: nat): (p: nat)
    ensures p > 0
  {
    if n == 0 then 1 else 256 * Pow256(n - 1)
  }

  /** The unsigned big-endian number of a byte string. */
  function BigEndian(b: Bytes): nat {
    if b == [] then 0 else b[0] * Pow256(|b| - 1) + BigEndian(b[1..])
  }

  lemma TimesMonotone(x: nat, y: nat, p: nat)
    requires x <= y
    ensures x * p <= y * p
  {
    assert (y - x) * p >= 0;
    assert (y - x) * p == y * p - x * p;
  }

  lemma {:induction false} BigEndianBound(b: Bytes)
    ensures BigEndian(b) < Pow256(|b|)
  {
    if b != [] {
      BigEndianBound(b[1..]);
      TimesMonotone(b[0], 255, Pow256(|b| - 1));
    }
  }

  lemma {:induction false} Pow256Monotone(m: nat, n: nat)
    requires m <= n
    ensures Pow256(m) <= Pow256(n)
    decreases n
  {
    if m < n {
      Pow256Monotone(m, n - 1);
    }
  }

  lemma {:induction false} BigEndianInjective(b: Bytes, c: Bytes)
    requires |b| == |c| && BigEndian(b) == BigEndian(c)
    ensures b == c
  {
    if b != [] {
      var p := Pow256(|b| - 1);
      BigEndianBound(b[1..]);
      BigEndianBound(c[1..]);
      SameLeading(b[0], c[0], p, BigEndian(b[1..]), BigEndian(c[1..]));
      BigEndianInjective(b[1..], c[1..]);
      assert b == [b[0]] + b[1..] && c == [c[0]] + c[1..];
    }
  }

  lemma SameLeading(x: nat, y: nat, p: nat, r: nat, s: nat)
    requires r < p && s < p && x * p + r == y * p + s
    ensures x == y && r == s
  {
    assert (x + 1) * p == x * p + p && (y + 1) * p == y * p + p;
    if x < y {
      TimesMonotone(x + 1, y, p);
    } else if y < x {
      TimesMonotone(y + 1, x, p);
    }
  }

  // ---------------------------------------------------------------- the encoder

  function StripZeros(b: Bytes): Bytes {
    if b != [] && b[0] == 0 then StripZeros(b[1..]) else b
  }

  /** The content octets of `encodeInt`. */
  function Content(b: Bytes): (c: Bytes)
    ensures 1 <= |c| <= |b| + 1
  {
    StripShrinks(b);
    var s := StripZeros(b);
    if s == [] then [0] else if s[0] >= 0x80 then [0] + s else s
  }

  lemma {:induction false} StripShrinks(b: Bytes)
    ensures |StripZeros(b)| <= |b|
    ensures StripZeros(b) != [] ==> StripZeros(b)[0] != 0
    ensures BigEndian(StripZeros(b)) == BigEndian(b)
  {
    if b != [] && b[0] == 0 {
      StripShrinks(b[1..]);
    }
  }

  /** A byte of a buffer keeps the low eight bits. */
  function LowByte(n: nat): Byte {
    n % 256
  }

  function EncodeInt(b: Bytes): Bytes {
    [0x02, LowByte(|Content(b)|)] + Content(b)
  }

  function LengthBytes(n: nat): Bytes {
    if n < 128 then [n] else if n < 256 then [0x81, n] else [0x82, LowByte(n / 256), LowByte(n)]
  }

  function EncodeSignature(r: Bytes, s: Bytes): Bytes {
    [0x30] + LengthBytes(|EncodeInt(r)| + |EncodeInt(s)|) + EncodeInt(r) + EncodeInt(s)
  }

  method ComputeInt(b: Bytes) returns (encoded: Bytes)
    ensures encoded == EncodeInt(b)
  {
    var i := 0;
    assert b[0..] == b;
    while i < |b| && b[i] == 0
      invariant 0 <= i <= |b|
      invariant StripZeros(b[i..]) == StripZeros(b)
    {
      assert b[i..][0] == b[i] && b[i..][1..] == b[i + 1..];
      i := i + 1;
    }
    var out := b[i..];
    assert out == StripZeros(b);
    if |out| == 0 {
      out := [0];
    }
    if out[0] >= 0x80 {
      out := [0] + out;
    }
    return [0x02, LowByte(|out|)] + out;
  }

  method ComputeSignature(r: Bytes, s: Bytes) returns (encoded: Bytes)
    ensures encoded == EncodeSignature(r, s)
    ensures ParseSignature(encoded) == Some((BigEndian(r), BigEndian(s)))
            <==> |Content(r)| <= 127 && |Content(s)| <= 127
  {
    RoundTripIff(r, s);
    var intR := ComputeInt(r);
    var intS := ComputeInt(s);
    var total := |intR| + |intS|;
    var lenBytes;
    if total < 128 {
      lenBytes := [total];
    } else if total < 256 {
      lenBytes := [0x81, total];
    } else {
      lenBytes := [0x82, LowByte(total / 256), LowByte(total)];
    }
    return [0x30] + lenBytes + intR + intS;
  }

  // ---------------------------------------------------------------- the decoder

  /** Definite lengths, short or long form, in the fewest octets (sections 8.1.3 and 10.1). */
  function ParseLength(b: Bytes): (r: Option<(nat, Bytes)>)
    ensures r.Some? ==> |r.value.1| < |b|
  {
    if b == [] then None
    else if b[0] < 0x80 then Some((b[0], b[1..]))
    else
      var n := b[0] - 0x80;
      if n == 0 || n == 127 || |b| < 1 + n then None
      else
        var v := BigEndian(b[1..1 + n]);
        if b[1] == 0 || v < 128 then None else Some((v, b[1 + n..]))
  }

  /** Content octets of a non-negative INTEGER in the fewest octets (section 8.3). */
  predicate MinimalContent(c: Bytes) {
    c != [] && c[0] < 0x80 && !(c[0] == 0 && |c| > 1 && c[1] < 0x80)
  }

  function ParseInteger(b: Bytes): (r: Option<(nat, Bytes)>)
    ensures r.Some? ==> |r.value.1| < |b|
  {
    if b == [] || b[0] != 0x02 then None else
    match ParseLength(b[1..])
    case None => None
    case Some((n, rest)) =>
      if n > |rest| || !MinimalContent(rest[..n]) then None else Some((BigEndian(rest[..n]), rest[n..]))
  }

  /** A SEQUENCE of exactly two integers and nothing after it. */
  function ParseSignature(b: Bytes): Option<(nat, nat)> {
    if b == [] || b[0] != 0x30 then None else
    match ParseLength(b[1..])
    case None => None
    case Some((n, body)) =>
      if n != |body| then None else
      match ParseInteger(body)
      case None => None
      case Some((r, rest)) =>
        match ParseInteger(rest)
        case None => None
        case Some((s, rest')) => if rest' == [] then Some((r, s)) else None
  }

  // ---------------------------------------------------------------- decoding what was encoded

  lemma ContentIsMinimal(b: Bytes)
    ensures MinimalContent(Content(b)) && BigEndian(Content(b)) == BigEndian(b)
  {
    StripShrinks(b);
    var s := StripZeros(b);
    assert ([0] + s)[1..] == s;
  }

  lemma IntegerReadBack(b: Bytes, rest: Bytes)
    requires |Content(b)| <= 127
    ensures ParseInteger(EncodeInt(b) + rest) == Some((BigEndian(b), rest))
  {
    var c := Content(b);
    var e := EncodeInt(b) + rest;
    assert e[1..] == [|c|] + (c + rest);
    assert ([|c|] + (c + rest))[1..] == c + rest;
    assert (c + rest)[..|c|] == c && (c + rest)[|c|..] == rest;
    ContentIsMinimal(b);
  }

  lemma LengthReadBack(n: nat, rest: Bytes)
    requires n < 0x1_0000
    ensures ParseLength(LengthBytes(n) + rest) == Some((n, rest))
  {
    var b := LengthBytes(n) + rest;
    if n >= 128 {
      var k := |LengthBytes(n)|;
      assert b[1..k] == LengthBytes(n)[1..] && b[k..] == rest;
      if k == 2 {
        assert LengthBytes(n)[1..] == [n];
        BigEndianOne(n);
      } else {
        assert LengthBytes(n)[1..] == [n / 256, n % 256];
        BigEndianTwo(n / 256, n % 256);
      }
    } else {
      assert b[1..] == rest;
    }
  }

  lemma BigEndianOne(x: Byte)
    ensures BigEndian([x]) == x
  {
    assert [x][1..] == [];
    assert Pow256(0) == 1;
  }

  lemma BigEndianTwo(x: Byte, y: Byte)
    ensures BigEndian([x, y]) == x * 256 + y
  {
    assert [x, y][1..] == [y];
    assert Pow256(1) == 256 * Pow256(0);
    BigEndianOne(y);
  }

  lemma SignatureReadBack(r: Bytes, s: Bytes)
    requires |Content(r)| <= 127 && |Content(s)| <= 127
    ensures ParseSignature(EncodeSignature(r, s)) == Some((BigEndian(r), BigEndian(s)))
  {
    var length := LengthBytes(|EncodeInt(r)| + |EncodeInt(s)|);
    LengthReadBack(|EncodeInt(r) + EncodeInt(s)|, EncodeInt(r) + EncodeInt(s));
    BodyReadBack(r, s);
    SequenceReadBack(length, EncodeInt(r), EncodeInt(s), BigEndian(r), BigEndian(s));
  }

  lemma SequenceReadBack(length: Bytes, a: Bytes, b: Bytes, r: nat, s: nat)
    requires ParseLength(length + (a + b)) == Some((|a + b|, a + b))
    requires ParseInteger(a + b) == Some((r, b)) && ParseInteger(b) == Some((s, []))
    ensures ParseSignature([0x30] + length + a + b) == Some((r, s))
  {
    AfterTag(0x30, length, a, b);
    ParsesSequence([0x30] + length + a + b, a + b, b, r, s);
  }

  lemma AfterTag(tag: Byte, length: Bytes, a: Bytes, b: Bytes)
    ensures ([tag] + length + a + b)[1..] == length + (a + b)
  {
  }

  lemma ParsesSequence(e: Bytes, body: Bytes, rest: Bytes, r: nat, s: nat)
    requires e != [] && e[0] == 0x30 && ParseLength(e[1..]) == Some((|body|, body))
    requires ParseInteger(body) == Some((r, rest)) && ParseInteger(rest) == Some((s, []))
    ensures ParseSignature(e) == Some((r, s))
  {
  }

  lemma BodyReadBack(r: Bytes, s: Bytes)
    requires |Content(r)| <= 127 && |Content(s)| <= 127
    ensures ParseInteger(EncodeInt(r) + EncodeInt(s)) == Some((BigEndian(r), EncodeInt(s)))
    ensures ParseInteger(EncodeInt(s)) == Some((BigEndian(s), []))
  {
    IntegerReadBack(r, EncodeInt(s));
    assert EncodeInt(s) + [] == EncodeInt(s);
    IntegerReadBack(s, []);
  }

  // ---------------------------------------------------------------- why longer integers fail

  /** A length takes one octet below 128, at least two from 128 on, and at least three from 256 on. */
  lemma LengthSize(b: Bytes)
    requires ParseLength(b).Some?
    ensures var (n, rest) := ParseLength(b).value;
            |b| - |rest| >= if n < 128 then 1 else if n < 256 then 2 else 3
  {
    if b[0] == 0x81 {
      assert b[1..2] == [b[1]];
      BigEndianOne(b[1]);
    }
  }

  /** Minimal content octets are determined by their value. */
  lemma MinimalUnique(c: Bytes, d: Bytes)
    requires MinimalContent(c) && MinimalContent(d) && BigEndian(c) == BigEndian(d)
    ensures c == d
  {
    if |c| == |d| {
      BigEndianInjective(c, d);
    } else if |c| < |d| {
      ShorterIsSmaller(c, d);
    } else {
      ShorterIsSmaller(d, c);
    }
  }

  lemma ShorterIsSmaller(c: Bytes, d: Bytes)
    requires MinimalContent(c) && MinimalContent(d) && |c| < |d|
    ensures BigEndian(c) < BigEndian(d)
  {
    // below 128 * 256^(|c|-1) on one side, at least 128 * 256^(|d|-2) on the other
    var p, q := Pow256(|c| - 1), Pow256(|d| - 2);
    BigEndianBound(c[1..]);
    TimesMonotone(c[0], 127, p);
    Pow256Monotone(|c| - 1, |d| - 2);
    LongIsLarge(d, q);
  }

  lemma LongIsLarge(d: Bytes, q: nat)
    requires MinimalContent(d) && |d| >= 2 && q == Pow256(|d| - 2)
    ensures BigEndian(d) >= 128 * q
  {
    assert d[1..][0] == d[1];
    assert BigEndian(d[1..]) >= d[1] * q;
    TimesMonotone(128, if d[1] >= 128 then d[1] else 128, q);
    TimesMonotone(1, if d[0] >= 1 then d[0] else 1, 256 * q);
  }

  /** A decoded integer occupies a tag, a length field and its minimal content. */
  lemma IntegerSize(b: Bytes, x: Bytes)
    requires ParseInteger(b).Some? && ParseInteger(b).value.0 == BigEndian(x)
    ensures |b| - |ParseInteger(b).value.1| >= (if |Content(x)| < 128 then 2 else 3) + |Content(x)|
  {
    var (n, rest) := ParseLength(b[1..]).value;
    LengthSize(b[1..]);
    ContentIsMinimal(x);
    MinimalUnique(rest[..n], Content(x));
  }

  lemma LongIntegersDoNotReadBack(r: Bytes, s: Bytes)
    requires |Content(r)| > 127 || |Content(s)| > 127
    ensures ParseSignature(EncodeSignature(r, s)) != Some((BigEndian(r), BigEndian(s)))
  {
    var e := EncodeSignature(r, s);
    var total := |EncodeInt(r)| + |EncodeInt(s)|;
    assert |e| == 1 + |LengthBytes(total)| + total && total == 4 + |Content(r)| + |Content(s)|;
    if ParseSignature(e) == Some((BigEndian(r), BigEndian(s))) {
      var (n, body) := ParseLength(e[1..]).value;
      LengthSize(e[1..]);
      IntegerSize(body, r);
      IntegerSize(ParseInteger(body).value.1, s);
      assert false;
    }
  }

  // ---------------------------------------------------------------- the bytes of any signature

  /** An integer is a tag, the low byte of its length, and the shortest content octets of its value. */
  lemma EncodedIntIs(b: Bytes, c: Bytes)
    requires MinimalContent(c) && BigEndian(c) == BigEndian(b)
    ensures EncodeInt(b) == [0x02, |c| % 256] + c
  {
    ContentIsMinimal(b);
    MinimalUnique(c, Content(b));
  }

  /** The length before the integers reads as theirs below 65536; from there on only its low sixteen bits are kept. */
  lemma EncodedSignatureIs(r: Bytes, s: Bytes)
    ensures var e, body := EncodeSignature(r, s), EncodeInt(r) + EncodeInt(s);
            && e[0] == 0x30
            && (|body| < 0x1_0000 ==> ParseLength(e[1..]) == Some((|body|, body)))
            && (|body| >= 0x1_0000 ==> e[1..] == [0x82, |body| / 256 % 256, |body| % 256] + body)
  {
    var e, body := EncodeSignature(r, s), EncodeInt(r) + EncodeInt(s);
    AfterTag(0x30, LengthBytes(|body|), EncodeInt(r), EncodeInt(s));
    if |body| < 0x1_0000 {
      LengthReadBack(|body|, body);
    }
  }

  // ---------------------------------------------------------------- main results

  /**
    The strict decoder recovers both integers and consumes the whole output exactly when neither
    integer needs more than 127 content octets.
   */
  lemma RoundTripIff(r: Bytes, s: Bytes)
    ensures ParseSignature(EncodeSignature(r, s)) == Some((BigEndian(r), BigEndian(s)))
            <==> |Content(r)| <= 127 && |Content(s)| <= 127
  {
    if |Content(r)| <= 127 && |Content(s)| <= 127 {
      SignatureReadBack(r, s);
    } else {
      LongIntegersDoNotReadBack(r, s);
    }
  }

  /** In particular for all inputs of at most 126 bytes, hence for every curve in use. */
  lemma RoundTripForCurves(r: Bytes, s: Bytes)
    requires |r| <= 126 && |s| <= 126
    ensures ParseSignature(EncodeSignature(r, s)) == Some((BigEndian(r), BigEndian(s)))
  {
    RoundTripIff(r, s);
  }

  /** For P-521 and smaller curves the two-octet long form never appears. */
  lemma NoTwoOctetLength(r: Bytes, s: Bytes)
    requires |r| <= 66 && |s| <= 66
    ensures |EncodeInt(r)| + |EncodeInt(s)| <= 138
    ensures EncodeSignature(r, s)[1] != 0x82
  {
  }
}
