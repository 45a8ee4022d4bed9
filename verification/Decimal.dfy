/**
  The TypeScript formatter for numbers that are not integers.

  Its input is what `toExponential(14)` delivers: a sign, fifteen significant digits and a decimal
  exponent. `Read` gives the number that a decimal literal denotes (section 6 of RFC 8259).
 */
module Decimal {
  import opened Utf8
  import opened Numerals

  // ---------------------------------------------------------------- digits and powers of ten

  predicate IsDigit(c: char) {
    '0' <= c <= '9'
  }

  predicate AllDigits(s: string) {
    forall i {:trigger IsDigit(s[i])} :: 0 <= i < |s| ==> IsDigit(s[i])
  }

  function DigitValue(c: char): (d: nat)
    requires IsDigit(c)
    ensures d < 10
  {
    c as int - '0' as int
  }

  /** The number that a digit string denotes. */
  function Nat(s: string): nat
    requires AllDigits(s)
  {
    if s == [] then 0 else Nat(s[..|s| - 1]) * 10 + DigitValue(s[|s| - 1])
  }

  function Pow10(n: nat): (p: nat)
    ensures p > 0
  {
    if n == 0 then 1 else 10 * Pow10(n - 1)
  }

  function Zeros(n: nat): (z: string)
    ensures |z| == n && AllDigits(z)
  {
    seq(n, _ => '0')
  }

  lemma NatAppendZero(s: string)
    requires AllDigits(s)
    ensures AllDigits(s + ['0']) && Nat(s + ['0']) == Nat(s) * 10
  {
    var z := s + ['0'];
    forall i | 0 <= i < |z| ensures IsDigit(z[i]) {
      assert i < |s| ==> IsDigit(s[i]);
    }
    assert z[..|z| - 1] == s;
  }

  lemma {:induction false} NatAppendZeros(s: string, n: nat)
    requires AllDigits(s)
    ensures AllDigits(s + Zeros(n)) && Nat(s + Zeros(n)) == Nat(s) * Pow10(n)
  {
    var z := s + Zeros(n);
    if n == 0 {
      assert z == s;
    } else {
      var y := s + Zeros(n - 1);
      NatAppendZeros(s, n - 1);
      NatAppendZero(y);
      assert z == y + ['0'];
      TimesAssociative(Nat(s), Pow10(n - 1), 10);
    }
  }

  lemma {:induction false} NatPrependZeros(n: nat, s: string)
    requires AllDigits(s)
    ensures AllDigits(Zeros(n) + s) && Nat(Zeros(n) + s) == Nat(s)
    decreases n + |s|
  {
    var z := Zeros(n) + s;
    if s != [] {
      assert z[..|z| - 1] == Zeros(n) + s[..|s| - 1];
      NatPrependZeros(n, s[..|s| - 1]);
    } else if n > 0 {
      assert z[..|z| - 1] == Zeros(n - 1) + s;
      NatPrependZeros(n - 1, s);
    }
  }

  lemma {:induction false} NatBound(s: string)
    requires AllDigits(s)
    ensures Nat(s) < Pow10(|s|)
    ensures s != [] && s[0] != '0' ==> Nat(s) >= Pow10(|s| - 1)
  {
    if s != [] {
      NatBound(s[..|s| - 1]);
      assert IsDigit(s[0]);
      assert |s| == 1 ==> s[..0] == [];
    }
  }

  lemma {:induction false} NatInjective(s: string, t: string)
    requires AllDigits(s) && AllDigits(t) && |s| == |t| && Nat(s) == Nat(t)
    ensures s == t
  {
    if s != [] {
      var n := |s| - 1;
      NatInjective(s[..n], t[..n]);
      assert s == s[..n] + [s[n]] && t == t[..n] + [t[n]];
    }
  }

  lemma {:induction false} NatOfDigitsText(n: nat)
    ensures AllDigits(DigitsText(n)) && DigitsText(n) != [] && Nat(DigitsText(n)) == n
  {
    var s := DigitsText(n);
    if n >= 10 {
      NatOfDigitsText(n / 10);
      assert s[..|s| - 1] == DigitsText(n / 10);
    } else {
      assert s[..|s| - 1] == [];
    }
  }

  // ---------------------------------------------------------------- the formatter

  /** Drops the trailing zeros of a string. */
  function DropZeros(s: string): string {
    if s != [] && s[|s| - 1] == '0' then DropZeros(s[..|s| - 1]) else s
  }

  lemma {:induction false} DropZerosSpec(s: string)
    ensures |DropZeros(s)| <= |s| && s == DropZeros(s) + Zeros(|s| - |DropZeros(s)|)
    ensures DropZeros(s) == [] || DropZeros(s)[|DropZeros(s)| - 1] != '0'
  {
    if s != [] && s[|s| - 1] == '0' {
      DropZerosSpec(s[..|s| - 1]);
      assert s == s[..|s| - 1] + ['0'];
    }
  }

  /** `replace(/\.$/, "")`. */
  function DropDot(s: string): string {
    if s != [] && s[|s| - 1] == '.' then s[..|s| - 1] else s
  }

  /** `replace(/\.?0+$/, "")`: trailing zeros, and the dot when they reach it. */
  function DropZerosAndDot(s: string): string {
    var t := DropZeros(s);
    if t == s then s else DropDot(t)
  }

  function IndexOf(s: string, c: char): (i: nat)
    ensures i <= |s|
  {
    if s == [] || s[0] == c then 0 else 1 + IndexOf(s[1..], c)
  }

  /** `replace(/\.(\d*?)0+$/, ...)`: the same, but only behind a dot. */
  function DropFractionZeros(s: string): string {
    var i := IndexOf(s, '.');
    if i == |s| then s else
    var fraction := s[i + 1..];
    var t := DropZeros(fraction);
    if t == fraction then s else if t == [] then s[..i] else s[..i + 1] + t
  }

  function ExponentText(exp: int): string {
    if -10 < exp < 0 then "-0" + DigitsText(-exp) else IntegerText(exp)
  }

  function Sign(negative: bool): string {
    if negative then "-" else ""
  }

  /** Fifteen significant digits, the first not zero. */
  ghost predicate Mantissa(digits: string) {
    |digits| == 15 && AllDigits(digits) && digits[0] != '0'
  }

  function UseScientific(exp: int): bool {
    exp < -4 || exp >= 15
  }

  function Scientific(negative: bool, digits: string, exp: int): string
    requires |digits| == 15
  {
    Sign(negative) + DropZerosAndDot(DropDot(digits[..1] + "." + digits[1..])) + ['e'] + ExponentText(exp)
  }

  /** All fifteen digits with the point at `dp`. */
  function Pointed(negative: bool, digits: string, dp: int): string
    requires |digits| == 15 && dp <= 15
  {
    if dp > 0 then
      if digits[dp..] != [] then Sign(negative) + digits[..dp] + "." + digits[dp..] else Sign(negative) + digits[..dp]
    else Sign(negative) + "0." + Zeros(-dp) + digits
  }

  function Positional(negative: bool, digits: string, exp: int): string
    requires |digits| == 15 && !UseScientific(exp)
  {
    DropDot(DropFractionZeros(Pointed(negative, digits, exp + 1)))
  }

  function Format(negative: bool, digits: string, exp: int): string
    requires |digits| == 15
  {
    if UseScientific(exp) then Scientific(negative, digits, exp) else Positional(negative, digits, exp)
  }

  /** `canonicalNumber` on a number that is not an integer. */
  method CanonicalNumber(negative: bool, digits: string, exp: int) returns (result: string)
    requires Mantissa(digits)
    ensures result == Format(negative, digits, exp)
    ensures Denotes(result, Given(negative, digits, exp))
  {
    FormatKeepsValue(negative, digits, exp);
    var sign := Sign(negative);
    if UseScientific(exp) {
      var absMantissa := digits[..1] + "." + digits[1..];
      var m := DropDot(absMantissa);
      m := DropZerosAndDot(m);
      return sign + m + "e" + ExponentText(exp);
    }
    var dp := exp + 1;
    if dp > 0 {
      var intPart, fracPart := sign + digits[..dp], digits[dp..];
      result := if fracPart != [] then intPart + "." + fracPart else intPart;
    } else {
      result := sign + "0." + Zeros(-dp) + digits;
    }
    assert result == Pointed(negative, digits, dp);
    result := DropFractionZeros(result);
    result := DropDot(result);
  }

  // ---------------------------------------------------------------- reading a literal

  /** The number `mantissa * 10^exponent`. */
  datatype Number = Number(mantissa: int, exponent: int)

  function ReadSigned(s: string): Option<int> {
    var negative := s != [] && s[0] == '-';
    var body := if negative then s[1..] else s;
    if body == [] || !AllDigits(body) then None else Some(if negative then -(Nat(body) as int) else Nat(body))
  }

  /** Digits with an optional fraction, without sign. */
  function ReadUnsigned(s: string): Option<Number> {
    var i := IndexOf(s, '.');
    if i == |s| then
      if s == [] || !AllDigits(s) then None else Some(Number(Nat(s), 0))
    else
      var whole, fraction := s[..i], s[i + 1..];
      if whole == [] || fraction == [] || !AllDigits(whole + fraction) then None
      else Some(Number(Nat(whole + fraction), -|fraction|))
  }

  /** An unsigned literal with an optional exponent. */
  function ReadMagnitude(s: string): Option<Number> {
    var e := IndexOf(s, 'e');
    match ReadUnsigned(s[..e])
    case None => None
    case Some(n) =>
      if e == |s| then Some(n)
      else match ReadSigned(s[e + 1..])
        case None => None
        case Some(x) => Some(Number(n.mantissa, n.exponent + x))
  }

  /** The number denoted by a decimal literal with optional sign, fraction and exponent. */
  function Read(s: string): Option<Number> {
    if s != [] && s[0] == '-' then
      match ReadMagnitude(s[1..])
      case None => None
      case Some(n) => Some(Number(-n.mantissa, n.exponent))
    else ReadMagnitude(s)
  }

  /** Equality of the denoted numbers, brought to the smaller exponent. */
  predicate SameNumber(a: Number, b: Number) {
    var k := if a.exponent <= b.exponent then a.exponent else b.exponent;
    a.mantissa * Pow10(a.exponent - k) == b.mantissa * Pow10(b.exponent - k)
  }

  function Signed(negative: bool, n: Number): Number {
    if negative then Number(-n.mantissa, n.exponent) else n
  }

  /** What the formatter was given: fifteen digits with the point behind the first. */
  function Given(negative: bool, digits: string, exp: int): Number
    requires AllDigits(digits)
  {
    Signed(negative, Number(Nat(digits), exp - 14))
  }

  /** The literal denotes the number. */
  predicate Denotes(literal: string, n: Number) {
    Read(literal).Some? && SameNumber(Read(literal).value, n)
  }

  // ---------------------------------------------------------------- reading back

  /** A literal assembled from digits: a whole part and a possibly empty fraction. */
  function Plain(whole: string, fraction: string): string {
    if fraction == [] then whole else whole + "." + fraction
  }

  lemma DigitsConcat(a: string, b: string)
    requires AllDigits(a) && AllDigits(b)
    ensures AllDigits(a + b)
  {
    forall i | 0 <= i < |a + b| ensures IsDigit((a + b)[i]) {
      if i < |a| {
        assert IsDigit(a[i]);
      } else {
        assert IsDigit(b[i - |a|]);
      }
    }
  }

  /** The number that `Plain` denotes. */
  function PlainNumber(whole: string, fraction: string): Number
    requires AllDigits(whole) && AllDigits(fraction)
  {
    DigitsConcat(whole, fraction);
    Number(Nat(whole + fraction), -|fraction|)
  }

  lemma {:induction false} IndexOfAppend(s: string, c: char, t: string)
    requires c !in s
    ensures IndexOf(s + t, c) == |s| + IndexOf(t, c)
  {
    if s == [] {
      assert s + t == t;
    } else {
      assert (s + t)[1..] == s[1..] + t;
      IndexOfAppend(s[1..], c, t);
    }
  }

  lemma ReadPlain(whole: string, fraction: string)
    requires whole != [] && AllDigits(whole) && AllDigits(fraction)
    ensures ReadUnsigned(Plain(whole, fraction)) == Some(PlainNumber(whole, fraction))
  {
    var s := Plain(whole, fraction);
    DigitsLack(whole, '.');
    DigitsConcat(whole, fraction);
    if fraction == [] {
      IndexOfAppend(whole, '.', []);
      assert whole + [] == whole;
    } else {
      assert s == whole + ("." + fraction);
      IndexOfAppend(whole, '.', "." + fraction);
      assert s[..|whole|] == whole && s[|whole| + 1..] == fraction;
    }
  }

  lemma ReadExponent(exp: int)
    ensures ReadSigned(ExponentText(exp)) == Some(exp)
    ensures ExponentText(exp) != []
  {
    var s := ExponentText(exp);
    NatOfDigitsText(if exp < 0 then -exp else exp);
    if -10 < exp < 0 {
      assert s[1..] == Zeros(1) + DigitsText(-exp);
      NatPrependZeros(1, DigitsText(-exp));
    } else if exp < 0 {
      assert s[1..] == DigitsText(-exp);
    } else {
      assert IsDigit(s[0]);
    }
  }

  /** An unsigned part without exponent, followed by an exponent if there is one. */
  lemma ReadTail(p: string, tail: string, n: Number, x: int)
    requires 'e' !in p && ReadUnsigned(p) == Some(n)
    requires if tail == [] then x == 0 else tail[0] == 'e' && ReadSigned(tail[1..]) == Some(x)
    ensures ReadMagnitude(p + tail) == Some(Number(n.mantissa, n.exponent + x))
  {
    var body := p + tail;
    IndexOfAppend(p, 'e', tail);
    assert body[..|p|] == p;
    if tail != [] {
      assert body[|p| + 1..] == tail[1..];
    }
  }

  /** A sign in front of something that starts with a digit. */
  lemma ReadSign(negative: bool, body: string)
    requires body != [] && IsDigit(body[0])
    ensures Read(Sign(negative) + body) ==
              match ReadMagnitude(body)
              case None => None
              case Some(n) => Some(Signed(negative, n))
  {
    if negative {
      assert (Sign(negative) + body)[1..] == body;
    } else {
      assert Sign(negative) + body == body;
    }
  }

  lemma ReadParts(negative: bool, p: string, tail: string, n: Number, x: int, result: Number)
    requires p != [] && IsDigit(p[0]) && 'e' !in p && ReadUnsigned(p) == Some(n)
    requires if tail == [] then x == 0 else tail[0] == 'e' && ReadSigned(tail[1..]) == Some(x)
    requires result == Number(n.mantissa, n.exponent + x)
    ensures Read(Sign(negative) + (p + tail)) == Some(Signed(negative, result))
  {
    ReadTail(p, tail, n, x);
    ReadSign(negative, p + tail);
  }

  lemma DigitsLack(s: string, c: char)
    requires AllDigits(s) && !IsDigit(c)
    ensures c !in s
  {
    forall i | 0 <= i < |s| ensures s[i] != c {
      assert IsDigit(s[i]);
    }
  }

  lemma PlainHasNoE(whole: string, fraction: string)
    requires whole != [] && AllDigits(whole) && AllDigits(fraction)
    ensures var p := Plain(whole, fraction); p != [] && IsDigit(p[0]) && 'e' !in p
  {
    assert IsDigit(whole[0]) && Plain(whole, fraction)[0] == whole[0];
    DigitsLack(whole, 'e');
    DigitsLack(fraction, 'e');
  }

  /** A literal without exponent. */
  lemma ReadPositional(negative: bool, whole: string, fraction: string)
    requires whole != [] && AllDigits(whole) && AllDigits(fraction)
    ensures Read(Sign(negative) + Plain(whole, fraction)) == Some(Signed(negative, PlainNumber(whole, fraction)))
  {
    var p, n := Plain(whole, fraction), PlainNumber(whole, fraction);
    assert n == Number(n.mantissa, n.exponent + 0);
    ReadPlain(whole, fraction);
    PlainHasNoE(whole, fraction);
    ReadParts(negative, p, [], n, 0, n);
    assert p + [] == p;
  }

  /** A literal with exponent. */
  lemma ReadScientific(negative: bool, whole: string, fraction: string, x: string, exp: int, result: Number)
    requires whole != [] && AllDigits(whole) && AllDigits(fraction)
    requires ReadSigned(x) == Some(exp)
    requires result == Number(PlainNumber(whole, fraction).mantissa, exp - |fraction|)
    ensures Read(Sign(negative) + (Plain(whole, fraction) + (['e'] + x))) == Some(Signed(negative, result))
  {
    var p, n, tail := Plain(whole, fraction), PlainNumber(whole, fraction), ['e'] + x;
    assert result == Number(n.mantissa, n.exponent + exp);
    assert tail[1..] == x;
    ReadPlain(whole, fraction);
    PlainHasNoE(whole, fraction);
    ReadParts(negative, p, tail, n, exp, result);
  }

  lemma Regroup(a: string, b: string, c: string, d: string)
    ensures a + b + c + d == a + (b + (c + d))
  {
  }

  /** Trailing zeros of the fraction go, and with the last of them the dot. */
  lemma DropFractionZerosOf(prefix: string, fraction: string)
    requires AllDigits(fraction) && fraction != []
    requires '.' !in prefix && prefix != []
    ensures DropDot(DropFractionZeros(prefix + "." + fraction)) == Plain(prefix, DropZeros(fraction))
  {
    var s, t := prefix + "." + fraction, DropZeros(fraction);
    assert s == prefix + ("." + fraction);
    IndexOfAppend(prefix, '.', "." + fraction);
    assert s[..|prefix|] == prefix && s[|prefix| + 1..] == fraction && s[..|prefix| + 1] == prefix + ".";
    assert DropFractionZeros(s) == Plain(prefix, t);
    NoTrailingDot(prefix, fraction);
  }

  lemma NoTrailingDot(prefix: string, fraction: string)
    requires AllDigits(fraction) && '.' !in prefix && prefix != []
    ensures var s := Plain(prefix, DropZeros(fraction)); DropDot(s) == s
  {
    var t := DropZeros(fraction);
    DropZerosSpec(fraction);
    if t == [] {
      assert prefix[|prefix| - 1] in prefix;
    } else {
      assert t[|t| - 1] == fraction[|t| - 1] && IsDigit(fraction[|t| - 1]);
    }
  }

  /** Dropping trailing zeros does not look past a character that is none. */
  lemma {:induction false} DropZerosBehind(prefix: string, c: char, s: string)
    requires c != '0'
    ensures DropZeros(prefix + [c] + s) == prefix + [c] + DropZeros(s)
  {
    var all := prefix + [c] + s;
    if s == [] {
      assert all == prefix + [c];
      assert DropZeros(s) == [];
    } else {
      var n := |s| - 1;
      assert all[|all| - 1] == s[n];
      if s[n] == '0' {
        DropZerosBehind(prefix, c, s[..n]);
        assert all[..|all| - 1] == prefix + [c] + s[..n];
        assert DropZeros(all) == DropZeros(all[..|all| - 1]);
        assert DropZeros(s) == DropZeros(s[..n]);
      }
    }
  }

  lemma ScientificMantissa(digits: string)
    requires Mantissa(digits)
    ensures DropZerosAndDot(DropDot(digits[..1] + "." + digits[1..])) == Plain(digits[..1], DropZeros(digits[1..]))
  {
    var head, fraction := digits[..1], digits[1..];
    var s, t := head + "." + fraction, DropZeros(fraction);
    assert IsDigit(digits[0]) && IsDigit(digits[14]);
    assert s[|s| - 1] == digits[14];
    DropZerosSpec(fraction);
    DropZerosBehind(head, '.', fraction);
    var dropped := head + "." + t;
    assert DropZeros(s) == dropped;
    if t == [] {
      assert dropped == head + "." && |dropped| < |s|;
      assert dropped[..|dropped| - 1] == head;
    } else {
      assert t[|t| - 1] == fraction[|t| - 1] == digits[|t|] && IsDigit(digits[|t|]);
      assert dropped[|dropped| - 1] == t[|t| - 1];
    }
  }

  /** Dropping the zeros of a fraction divides its number by the power of ten dropped. */
  lemma DropScales(whole: string, fraction: string)
    requires AllDigits(whole) && AllDigits(fraction)
    ensures var t := DropZeros(fraction);
            && |t| <= |fraction| && AllDigits(t)
            && PlainNumber(whole, fraction).mantissa == PlainNumber(whole, t).mantissa * Pow10(|fraction| - |t|)
  {
    var t := DropZeros(fraction);
    DropZerosSpec(fraction);
    forall i | 0 <= i < |t| ensures IsDigit(t[i]) {
      assert t[i] == fraction[i] && IsDigit(fraction[i]);
    }
    DigitsConcat(whole, t);
    NatAppendZeros(whole + t, |fraction| - |t|);
    assert whole + fraction == (whole + t) + Zeros(|fraction| - |t|);
  }

  lemma SameScaled(negative: bool, read: Number, given: Number)
    requires given.exponent <= read.exponent
    requires given.mantissa == read.mantissa * Pow10(read.exponent - given.exponent)
    ensures SameNumber(Signed(negative, read), Signed(negative, given))
  {
    var p := Pow10(read.exponent - given.exponent);
    assert (-read.mantissa) * p == -(read.mantissa * p);
    assert Pow10(0) == 1;
  }

  /** A literal that reads as the number without its dropped zeros denotes the number. */
  lemma DenotesScaled(literal: string, negative: bool, read: Number, given: Number)
    requires Read(literal) == Some(Signed(negative, read)) && given.exponent <= read.exponent
    requires given.mantissa == read.mantissa * Pow10(read.exponent - given.exponent)
    ensures Denotes(literal, Signed(negative, given))
  {
    SameScaled(negative, read, given);
  }

  /** The same for a literal whose fraction lost its zeros. */
  lemma DenotesDropped(literal: string, negative: bool, whole: string, fraction: string, digits: string, read: Number,
                       exp: int)
    requires AllDigits(whole) && AllDigits(fraction) && AllDigits(digits)
    requires AllDigits(DropZeros(fraction)) && PlainNumber(whole, fraction).mantissa == Nat(digits)
    requires Read(literal) == Some(Signed(negative, read))
    requires read.mantissa == PlainNumber(whole, DropZeros(fraction)).mantissa
    requires read.exponent == exp - 14 + |fraction| - |DropZeros(fraction)|
    ensures Denotes(literal, Given(negative, digits, exp))
  {
    DropScales(whole, fraction);
    DenotesScaled(literal, negative, read, Number(Nat(digits), exp - 14));
  }

  lemma DigitsPrefix(digits: string, dp: nat)
    requires AllDigits(digits) && dp <= |digits|
    ensures AllDigits(digits[..dp])
  {
    var p := digits[..dp];
    forall i | 0 <= i < |p| ensures IsDigit(p[i]) {
      assert IsDigit(digits[i]);
    }
  }

  lemma DigitsSuffix(digits: string, dp: nat)
    requires AllDigits(digits) && dp <= |digits|
    ensures AllDigits(digits[dp..])
  {
    var p := digits[dp..];
    forall i | 0 <= i < |p| ensures IsDigit(p[i]) {
      assert IsDigit(digits[dp + i]);
    }
  }

  lemma DigitsCut(digits: string, dp: nat)
    requires AllDigits(digits) && dp <= |digits|
    ensures AllDigits(digits[..dp]) && AllDigits(digits[dp..])
    ensures PlainNumber(digits[..dp], digits[dp..]).mantissa == Nat(digits)
  {
    DigitsPrefix(digits, dp);
    DigitsSuffix(digits, dp);
    assert digits[..dp] + digits[dp..] == digits;
  }

  // ---------------------------------------------------------------- main results

  /** A sign, digits with a fraction that lost its zeros, and an exponent. */
  lemma ScientificDenotes(negative: bool, whole: string, fraction: string, x: string, digits: string, exp: int)
    requires whole != [] && AllDigits(whole) && AllDigits(fraction) && AllDigits(digits)
    requires ReadSigned(x) == Some(exp)
    requires PlainNumber(whole, fraction).mantissa == Nat(digits) && |fraction| == 14
    ensures Denotes(Sign(negative) + (Plain(whole, DropZeros(fraction)) + (['e'] + x)), Given(negative, digits, exp))
  {
    DropScales(whole, fraction);
    var t := DropZeros(fraction);
    var read := Number(PlainNumber(whole, t).mantissa, exp - |t|);
    ReadScientific(negative, whole, t, x, exp, read);
    DenotesDropped(Sign(negative) + (Plain(whole, t) + (['e'] + x)), negative, whole, fraction, digits, read, exp);
  }

  /** A sign and digits with a fraction that lost its zeros. */
  lemma PositionalDenotes(negative: bool, whole: string, fraction: string, digits: string, exp: int)
    requires whole != [] && AllDigits(whole) && AllDigits(fraction) && AllDigits(digits)
    requires PlainNumber(whole, fraction).mantissa == Nat(digits) && |fraction| == 14 - exp
    ensures Denotes(Sign(negative) + Plain(whole, DropZeros(fraction)), Given(negative, digits, exp))
  {
    DropScales(whole, fraction);
    var t := DropZeros(fraction);
    ReadPositional(negative, whole, t);
    DenotesDropped(Sign(negative) + Plain(whole, t), negative, whole, fraction, digits, PlainNumber(whole, t), exp);
  }

  lemma ScientificKeepsValue(negative: bool, digits: string, exp: int)
    requires Mantissa(digits)
    ensures Denotes(Scientific(negative, digits, exp), Given(negative, digits, exp))
  {
    DigitsCut(digits, 1);
    ReadExponent(exp);
    ScientificDenotes(negative, digits[..1], digits[1..], ExponentText(exp), digits, exp);
    ScientificText(negative, digits, exp);
  }

  lemma ScientificText(negative: bool, digits: string, exp: int)
    requires Mantissa(digits)
    ensures Scientific(negative, digits, exp)
            == Sign(negative) + (Plain(digits[..1], DropZeros(digits[1..])) + (['e'] + ExponentText(exp)))
  {
    ScientificMantissa(digits);
    Regroup(Sign(negative), Plain(digits[..1], DropZeros(digits[1..])), ['e'], ExponentText(exp));
  }

  lemma PositionalKeepsValue(negative: bool, digits: string, exp: int)
    requires Mantissa(digits) && !UseScientific(exp)
    ensures Denotes(Positional(negative, digits, exp), Given(negative, digits, exp))
  {
    var dp := exp + 1;
    if dp > 0 {
      LargePositional(negative, digits, dp);
    } else {
      SmallPositional(negative, digits, -dp);
    }
  }

  lemma LargePositional(negative: bool, digits: string, dp: nat)
    requires Mantissa(digits) && 1 <= dp <= 15
    ensures Denotes(Positional(negative, digits, dp - 1), Given(negative, digits, dp - 1))
  {
    DigitsCut(digits, dp);
    assert |digits[dp..]| == 14 - (dp - 1);
    PositionalDenotes(negative, digits[..dp], digits[dp..], digits, dp - 1);
    LargeText(negative, digits, dp);
  }

  lemma SignedPlain(negative: bool, whole: string, fraction: string)
    ensures Plain(Sign(negative) + whole, fraction) == Sign(negative) + Plain(whole, fraction)
  {
    assert fraction != [] ==> Sign(negative) + whole + "." + fraction == Sign(negative) + (whole + "." + fraction);
  }

  lemma PrefixHasNoDot(negative: bool, whole: string)
    requires AllDigits(whole) && whole != []
    ensures '.' !in Sign(negative) + whole && Sign(negative) + whole != []
  {
    DigitsLack(whole, '.');
  }

  lemma LargeText(negative: bool, digits: string, dp: nat)
    requires Mantissa(digits) && 1 <= dp <= 15
    ensures Positional(negative, digits, dp - 1) == Sign(negative) + Plain(digits[..dp], DropZeros(digits[dp..]))
  {
    var whole, fraction := digits[..dp], digits[dp..];
    var prefix := Sign(negative) + whole;
    DigitsCut(digits, dp);
    PrefixHasNoDot(negative, whole);
    SignedPlain(negative, whole, DropZeros(fraction));
    if fraction != [] {
      DropFractionZerosOf(prefix, fraction);
    } else {
      IndexOfAppend(prefix, '.', []);
      assert prefix + [] == prefix;
      NoTrailingDot(prefix, []);
    }
  }

  lemma SmallPositional(negative: bool, digits: string, zeros: nat)
    requires Mantissa(digits) && zeros <= 3
    ensures Denotes(Positional(negative, digits, -1 - zeros), Given(negative, digits, -1 - zeros))
  {
    var fraction := Zeros(zeros) + digits;
    SmallValue(digits, zeros);
    SmallText(negative, digits, zeros);
    SmallDenotes(negative, fraction, digits, zeros, Sign(negative) + Plain("0", DropZeros(fraction)));
  }

  lemma SmallDenotes(negative: bool, fraction: string, digits: string, zeros: nat, literal: string)
    requires AllDigits(fraction) && AllDigits(digits) && |fraction| == zeros + 15
    requires PlainNumber("0", fraction).mantissa == Nat(digits)
    requires literal == Sign(negative) + Plain("0", DropZeros(fraction))
    ensures Denotes(literal, Given(negative, digits, -1 - zeros))
  {
    PositionalDenotes(negative, "0", fraction, digits, -1 - zeros);
  }

  lemma SmallValue(digits: string, zeros: nat)
    requires Mantissa(digits)
    ensures AllDigits(Zeros(zeros) + digits) && PlainNumber("0", Zeros(zeros) + digits).mantissa == Nat(digits)
  {
    DigitsConcat(Zeros(zeros), digits);
    assert "0" + (Zeros(zeros) + digits) == Zeros(zeros + 1) + digits;
    NatPrependZeros(zeros + 1, digits);
  }

  lemma SmallText(negative: bool, digits: string, zeros: nat)
    requires Mantissa(digits) && zeros <= 3
    ensures Positional(negative, digits, -1 - zeros) == Sign(negative) + Plain("0", DropZeros(Zeros(zeros) + digits))
  {
    PointedSmall(negative, digits, zeros);
    DigitsConcat(Zeros(zeros), digits);
    PrefixHasNoDot(negative, "0");
    DropFractionZerosOf(Sign(negative) + "0", Zeros(zeros) + digits);
    SignedPlain(negative, "0", DropZeros(Zeros(zeros) + digits));
  }

  lemma PointedSmall(negative: bool, digits: string, zeros: nat)
    requires |digits| == 15
    ensures Pointed(negative, digits, -(zeros as int)) == Sign(negative) + "0" + "." + (Zeros(zeros) + digits)
  {
    assert Sign(negative) + "0." == Sign(negative) + "0" + ".";
  }

  /** The printed literal denotes exactly the number that was given, in both forms. */
  lemma FormatKeepsValue(negative: bool, digits: string, exp: int)
    requires Mantissa(digits)
    ensures Denotes(Format(negative, digits, exp), Given(negative, digits, exp))
  {
    if UseScientific(exp) {
      ScientificKeepsValue(negative, digits, exp);
    } else {
      PositionalKeepsValue(negative, digits, exp);
    }
  }

  // ---------------------------------------------------------------- the text itself

  /** The first `k` digits are significant: the last of them is not zero, and all after it are. */
  ghost predicate Significant(digits: string, k: int) {
    1 <= k <= |digits| && digits[k - 1] != '0' && forall i :: k <= i < |digits| ==> digits[i] == '0'
  }

  lemma {:induction false} DropZerosIs(s: string, n: nat)
    requires n <= |s| && (n > 0 ==> s[n - 1] != '0') && forall i :: n <= i < |s| ==> s[i] == '0'
    ensures DropZeros(s) == s[..n]
    decreases |s|
  {
    if n < |s| {
      DropZerosIs(s[..|s| - 1], n);
      assert s[..|s| - 1][..n] == s[..n];
    } else {
      assert s[..n] == s;
    }
  }

  lemma DropSuffixZeros(digits: string, dp: nat, k: nat)
    requires |digits| == 15 && Significant(digits, k) && dp <= 15
    ensures DropZeros(digits[dp..]) == if k <= dp then "" else digits[dp..k]
  {
    var s := digits[dp..];
    var n := if k <= dp then 0 else k - dp;
    DropZerosIs(s, n);
    assert k > dp ==> s[..n] == digits[dp..k];
  }

  /** Decimal digits without leading zeros, for the number that they denote. */
  lemma {:induction false} DigitsTextIs(n: nat)
    ensures AllDigits(DigitsText(n)) && DigitsText(n) != [] && Nat(DigitsText(n)) == n
    ensures n > 0 ==> DigitsText(n)[0] != '0'
    ensures n < 10 ==> |DigitsText(n)| == 1
  {
    NatOfDigitsText(n);
    if n >= 10 {
      DigitsTextIs(n / 10);
    }
  }

  /** The exponent: a minus sign below zero, and then at least two digits, but no zero in front of others. */
  lemma ExponentIs(exp: int)
    ensures exp >= 0 ==> ExponentText(exp) == DigitsText(exp)
    ensures exp <= -10 ==> ExponentText(exp) == ['-'] + DigitsText(-exp)
    ensures -10 < exp < 0 ==> ExponentText(exp) == ['-', '0', (0x30 - exp) as char]
  {
  }

  /** Below -4 and from 15 on: the first digit, a point and the other significant digits if any, and the exponent. */
  lemma FormatIsScientific(negative: bool, digits: string, exp: int, k: nat)
    requires Mantissa(digits) && Significant(digits, k) && (exp < -4 || 14 < exp)
    ensures var m := if k == 1 then digits[..1] else digits[..1] + "." + digits[1..k];
            Format(negative, digits, exp) == (if negative then "-" else "") + (m + (['e'] + ExponentText(exp)))
  {
    DropSuffixZeros(digits, 1, k);
    ScientificText(negative, digits, exp);
  }

  /** From 0 to 14: the digits before the point, and after it the significant ones, if there are any. */
  lemma FormatIsLarge(negative: bool, digits: string, exp: int, k: nat)
    requires Mantissa(digits) && Significant(digits, k) && 0 <= exp <= 14
    ensures var m := if k <= exp + 1 then digits[..exp + 1] else digits[..exp + 1] + "." + digits[exp + 1..k];
            Format(negative, digits, exp) == (if negative then "-" else "") + m
  {
    DropSuffixZeros(digits, exp + 1, k);
    LargeText(negative, digits, exp + 1);
  }

  /** From -4 to -1: a zero, a point, the zeros behind it, and the significant digits. */
  lemma FormatIsSmall(negative: bool, digits: string, exp: int, k: nat)
    requires Mantissa(digits) && Significant(digits, k) && -4 <= exp <= -1
    ensures Format(negative, digits, exp)
            == (if negative then "-" else "") + ("0" + "." + (seq(-exp - 1, _ => '0') + digits[..k]))
  {
    var zeros := -exp - 1;
    DropBehindZeros(zeros, digits, k);
    SmallText(negative, digits, zeros);
    assert Zeros(zeros) == seq(zeros, _ => '0');
  }

  lemma DropBehindZeros(zeros: nat, digits: string, k: nat)
    requires Significant(digits, k)
    ensures DropZeros(Zeros(zeros) + digits) == Zeros(zeros) + digits[..k]
  {
    var s := Zeros(zeros) + digits;
    assert s[..zeros + k] == Zeros(zeros) + digits[..k];
    DropZerosIs(s, zeros + k);
  }

  // ---------------------------------------------------------------- injectivity

  lemma {:induction false} Pow10Sum(m: nat, n: nat)
    ensures Pow10(m + n) == Pow10(m) * Pow10(n)
  {
    if m > 0 {
      Pow10Sum(m - 1, n);
      TimesAssociative(10, Pow10(m - 1), Pow10(n));
    }
  }

  lemma TimesAssociative(x: int, y: int, z: int)
    ensures x * y * z == x * (y * z)
  {
  }

  /** Equality survives bringing both numbers to any smaller exponent. */
  lemma Rescale(a: Number, b: Number, k: int)
    requires SameNumber(a, b) && k <= a.exponent && k <= b.exponent
    ensures a.mantissa * Pow10(a.exponent - k) == b.mantissa * Pow10(b.exponent - k)
  {
    var l := if a.exponent <= b.exponent then a.exponent else b.exponent;
    Pow10Sum(a.exponent - l, l - k);
    Pow10Sum(b.exponent - l, l - k);
    TimesAssociative(a.mantissa, Pow10(a.exponent - l), Pow10(l - k));
    TimesAssociative(b.mantissa, Pow10(b.exponent - l), Pow10(l - k));
  }

  lemma CancelRight(x: int, y: int, p: int)
    requires p > 0 && x * p == y * p
    ensures x == y
  {
    assert (x - y) * p == x * p - y * p;
  }

  /** Fifteen significant digits, signed. */
  predicate Normal(n: Number) {
    Pow10(14) <= n.mantissa < Pow10(15) || -(Pow10(15) as int) < n.mantissa <= -(Pow10(14) as int)
  }

  lemma GivenIsNormal(negative: bool, digits: string, exp: int)
    requires Mantissa(digits)
    ensures Normal(Given(negative, digits, exp))
  {
    NatBound(digits);
  }

  /** A larger exponent cannot be made up for by fifteen digits. */
  lemma ExponentsDecide(a: Number, b: Number, k: int)
    requires Normal(a) && Normal(b) && k <= a.exponent < b.exponent
    ensures a.mantissa * Pow10(a.exponent - k) != b.mantissa * Pow10(b.exponent - k)
  {
    var d := b.exponent - a.exponent;
    var p := Pow10(a.exponent - k);
    Pow10Sum(d, a.exponent - k);
    TimesAssociative(b.mantissa, Pow10(d), p);
    if a.mantissa * p == b.mantissa * Pow10(b.exponent - k) {
      CancelRight(a.mantissa, b.mantissa * Pow10(d), p);
      assert Pow10(d) == 10 * Pow10(d - 1);
      GrowsTenfold(b.mantissa, Pow10(d - 1));
      assert Pow10(15) == 10 * Pow10(14);
      assert false;
    }
  }

  lemma GrowsTenfold(m: int, q: nat)
    requires q >= 1
    ensures m > 0 ==> m * (10 * q) >= 10 * m
    ensures m < 0 ==> m * (10 * q) <= 10 * m
  {
    var r := q - 1;
    assert m * (10 * q) == 10 * m + 10 * (m * r);
    assert m > 0 ==> m * r >= 0;
    assert m < 0 ==> m * r <= 0;
  }

  lemma NormalUnique(a: Number, b: Number, r: Number)
    requires Normal(a) && Normal(b) && SameNumber(r, a) && SameNumber(r, b)
    ensures a == b
  {
    var k := if a.exponent <= b.exponent then a.exponent else b.exponent;
    k := if r.exponent <= k then r.exponent else k;
    Rescale(r, a, k);
    Rescale(r, b, k);
    if a.exponent < b.exponent {
      ExponentsDecide(a, b, k);
    } else if b.exponent < a.exponent {
      ExponentsDecide(b, a, k);
    } else {
      CancelRight(a.mantissa, b.mantissa, Pow10(a.exponent - k));
    }
  }

  /** Different signs, digits or exponents are printed differently. */
  lemma FormatInjective(negative: bool, digits: string, exp: int, negative': bool, digits': string, exp': int)
    requires Mantissa(digits) && Mantissa(digits')
    requires Format(negative, digits, exp) == Format(negative', digits', exp')
    ensures negative == negative' && digits == digits' && exp == exp'
  {
    FormatKeepsValue(negative, digits, exp);
    FormatKeepsValue(negative', digits', exp');
    GivenIsNormal(negative, digits, exp);
    GivenIsNormal(negative', digits', exp');
    SameLiteral(Format(negative, digits, exp), Given(negative, digits, exp), Given(negative', digits', exp'));
    NatInjective(digits, digits');
  }

  lemma SameLiteral(literal: string, a: Number, b: Number)
    requires Denotes(literal, a) && Denotes(literal, b) && Normal(a) && Normal(b)
    ensures a == b
  {
    NormalUnique(a, b, Read(literal).value);
  }
}
