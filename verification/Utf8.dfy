/**
  UTF-8 (RFC 3629) and the two orders in which the implementations sort object keys.

  A Dafny `char` is a Unicode scalar value, exactly what a Rust `char` is, so a valid
  string of any implementation is a Dafny `string`.
 */
module Utf8 {

  type Byte = b: int | 0 <= b < 256
  type Bytes = seq<Byte>

  datatype Option<+T> = None | Some(value: T)

  /** One scalar value as one to four bytes (section 3 of RFC 3629). */
  function EncodeChar(c: char): (b: Bytes)
    ensures 1 <= |b| <= 4
    ensures b[0] < 0x80 <==> c as int < 0x80
    ensures c as int < 0x80 ==> b == [c as int]
    ensures forall i :: 1 <= i < |b| ==> b[i] >= 0x80
  {
    var n: int := c as int;
    var q := n / 64;  // all but the last six bits
    var p := q / 64;  // all but the last twelve bits
    if n < 0x80 then [n]
    else if n < 0x800 then [0xC0 + q, 0x80 + n % 64]
    else if n < 0x10000 then [0xE0 + p, 0x80 + q % 64, 0x80 + n % 64]
    else [0xF0 + p / 64, 0x80 + p % 64, 0x80 + q % 64, 0x80 + n % 64]
  }

  predicate IsScalar(n: int) {
    0 <= n < 0xD800 || 0xE000 <= n < 0x110000
  }

  predicate IsTail(b: Byte) {
    0x80 <= b < 0xC0
  }

  /** Reads one scalar value; rejects overlong forms, surrogates and truncation. */
  function DecodeChar(b: Bytes): (r: Option<(char, nat)>)
    ensures r.Some? ==> 1 <= r.value.1 <= |b|
  {
    if |b| >= 1 && b[0] < 0x80 then Some((b[0] as char, 1))
    else if |b| >= 2 && 0xC0 <= b[0] < 0xE0 && IsTail(b[1]) then
      var n: int := (b[0] as int - 0xC0) * 64 + (b[1] as int - 0x80);
      if n >= 0x80 then Some((n as char, 2)) else None
    else if |b| >= 3 && 0xE0 <= b[0] < 0xF0 && IsTail(b[1]) && IsTail(b[2]) then
      var n: int := ((b[0] as int - 0xE0) * 64 + (b[1] as int - 0x80)) * 64 + (b[2] as int - 0x80);
      if n >= 0x800 && IsScalar(n) then Some((n as char, 3)) else None
    else if |b| >= 4 && 0xF0 <= b[0] < 0xF8 && IsTail(b[1]) && IsTail(b[2]) && IsTail(b[3]) then
      var n: int := (((b[0] as int - 0xF0) * 64 + (b[1] as int - 0x80)) * 64 + (b[2] as int - 0x80)) * 64
          + (b[3] as int - 0x80);
      if n >= 0x10000 && IsScalar(n) then Some((n as char, 4)) else None
    else None
  }

  /** Decoding reads back the encoded scalar whatever follows it. */
  lemma DecodeEncodedChar(c: char, rest: Bytes)
    ensures DecodeChar(EncodeChar(c) + rest) == Some((c, |EncodeChar(c)|))
  {
    var e := EncodeChar(c);
    var b := e + rest;
    assert forall i :: 0 <= i < |e| ==> b[i] == e[i];
  }

  function Encode(s: string): (b: Bytes)
    ensures b == [] <==> s == []
  {
    if s == [] then [] else EncodeChar(s[0]) + Encode(s[1..])
  }

  function Decode(b: Bytes): Option<string> {
    if b == [] then Some([])
    else match DecodeChar(b)
      case None => None
      case Some((c, n)) =>
        match Decode(b[n..])
        case None => None
        case Some(s) => Some([c] + s)
  }

  /** Encoding is a homomorphism from strings to byte strings. */
  lemma {:induction false} EncodeConcat(s: string, t: string)
    ensures Encode(s + t) == Encode(s) + Encode(t)
  {
    if s == [] {
      assert s + t == t;
    } else {
      assert (s + t)[0] == s[0] && (s + t)[1..] == s[1..] + t;
      EncodeConcat(s[1..], t);
    }
  }

  /** UTF-8 decoding inverts encoding. */
  lemma {:induction false} DecodeEncoded(s: string)
    ensures Decode(Encode(s)) == Some(s)
  {
    if s != [] {
      DecodeEncodedChar(s[0], Encode(s[1..]));
      assert s == [s[0]] + s[1..];
      assert Encode(s)[|EncodeChar(s[0])|..] == Encode(s[1..]);
      DecodeEncoded(s[1..]);
    }
  }

  lemma EncodeInjective(s: string, t: string)
    requires Encode(s) == Encode(t)
    ensures s == t
  {
    DecodeEncoded(s);
    DecodeEncoded(t);
  }

  // ---------------------------------------------------------------- orders

  /** The lexicographic order on integer sequences; a proper prefix comes first. */
  predicate LexLess(a: seq<int>, b: seq<int>) {
    b != [] && (a == [] || a[0] < b[0] || (a[0] == b[0] && LexLess(a[1..], b[1..])))
  }

  lemma {:induction false} LexTrichotomy(a: seq<int>, b: seq<int>)
    ensures LexLess(a, b) || a == b || LexLess(b, a)
    ensures !(LexLess(a, b) && LexLess(b, a))
    ensures !LexLess(a, a)
  {
    if a != [] {
      LexTrichotomy(a[1..], a[1..]);
      if b != [] {
        LexTrichotomy(a[1..], b[1..]);
        assert a == [a[0]] + a[1..] && b == [b[0]] + b[1..];
      }
    }
  }

  lemma {:induction false} LexTransitive(a: seq<int>, b: seq<int>, c: seq<int>)
    requires LexLess(a, b) && LexLess(b, c)
    ensures LexLess(a, c)
  {
    if a != [] && a[0] == b[0] == c[0] {
      LexTransitive(a[1..], b[1..], c[1..]);
    }
  }

  /** A common prefix does not matter. */
  lemma {:induction false} LexSharedPrefix(p: seq<int>, a: seq<int>, b: seq<int>)
    ensures LexLess(p + a, p + b) <==> LexLess(a, b)
  {
    if p == [] {
      assert p + a == a && p + b == b;
    } else {
      assert (p + a)[1..] == p[1..] + a && (p + b)[1..] == p[1..] + b;
      LexSharedPrefix(p[1..], a, b);
    }
  }

  /** The first difference decides, whatever follows. */
  lemma LexFirstDifference(a: seq<int>, b: seq<int>, k: nat)
    requires k < |a| && k < |b| && a[..k] == b[..k] && a[k] < b[k]
    ensures LexLess(a, b)
  {
    assert a == a[..k] + a[k..] && b == a[..k] + b[k..];
    LexSharedPrefix(a[..k], a[k..], b[k..]);
  }

  /** One sequence is less when, behind a common prefix, it ends or has the smaller element. */
  lemma {:induction false} LexLessIff(a: seq<int>, b: seq<int>)
    ensures LexLess(a, b) <==>
              exists k :: 0 <= k <= |a| && k < |b| && a[..k] == b[..k] && (k == |a| || a[k] < b[k])
  {
    if LexLess(a, b) {
      var k := Difference(a, b);
    }
    if k :| 0 <= k <= |a| && k < |b| && a[..k] == b[..k] && (k == |a| || a[k] < b[k]) {
      assert a == a[..k] + a[k..] && b == a[..k] + b[k..];
      LexSharedPrefix(a[..k], a[k..], b[k..]);
    }
  }

  lemma {:induction false} Difference(a: seq<int>, b: seq<int>) returns (k: nat)
    requires LexLess(a, b)
    ensures k <= |a| && k < |b| && a[..k] == b[..k] && (k == |a| || a[k] < b[k])
  {
    k := 0;
    if a != [] && a[0] == b[0] {
      var rest := Difference(a[1..], b[1..]);
      k := rest + 1;
      assert a[..k] == [a[0]] + a[1..][..rest] && b[..k] == [b[0]] + b[1..][..rest];
    }
  }

  /** A larger scalar value has a larger byte at the first place where the encodings differ. */
  lemma CharOrder(c: char, d: char) returns (k: nat)
    requires c as int < d as int
    ensures k < |EncodeChar(c)| && k < |EncodeChar(d)|
    ensures EncodeChar(c)[..k] == EncodeChar(d)[..k] && EncodeChar(c)[k] < EncodeChar(d)[k]
  {
    var b, e := EncodeChar(c), EncodeChar(d);
    k := 0;
    if b[0] == e[0] {
      k := 1;
      if b[1] == e[1] {
        k := 2;
        if b[2] == e[2] {
          k := 3;
        }
      }
    }
  }

  function CodePoints(s: string): (r: seq<int>)
    ensures |r| == |s|
  {
    seq(|s|, i requires 0 <= i < |s| => s[i] as int)
  }

  /** Byte order of the UTF-8 encodings is code point order (section 1 of RFC 3629). */
  lemma {:induction false} ByteOrderIsCodePointOrder(s: string, t: string)
    ensures LexLess(Encode(s), Encode(t)) <==> LexLess(CodePoints(s), CodePoints(t))
  {
    if s != [] && t != [] {
      assert CodePoints(s)[1..] == CodePoints(s[1..]) && CodePoints(t)[1..] == CodePoints(t[1..]);
      if s[0] == t[0] {
        ByteOrderIsCodePointOrder(s[1..], t[1..]);
        LexSharedPrefix(EncodeChar(s[0]), Encode(s[1..]), Encode(t[1..]));
      } else if s[0] as int < t[0] as int {
        FirstCharDecides(s, t);
      } else {
        FirstCharDecides(t, s);
        LexTrichotomy(Encode(s), Encode(t));
      }
    }
  }

  lemma FirstCharDecides(s: string, t: string)
    requires s != [] && t != [] && s[0] as int < t[0] as int
    ensures LexLess(Encode(s), Encode(t))
  {
    var k := CharOrder(s[0], t[0]);
    var a, b := Encode(s), Encode(t);
    assert a[..k] == EncodeChar(s[0])[..k] && b[..k] == EncodeChar(t[0])[..k];
    LexFirstDifference(a, b, k);
  }

  // ---------------------------------------------------------------- sorted keys

  /** How an implementation ranks keys: by UTF-8 bytes (Rust, Python) or by code points (TypeScript). */
  datatype KeyOrder = ByBytes | ByCodePoints
  {
    function Rank(k: string): seq<int> {
      if ByBytes? then Encode(k) else CodePoints(k)
    }

    predicate Less(a: string, b: string) {
      LexLess(Rank(a), Rank(b))
    }
  }

  lemma RankInjective(o: KeyOrder, a: string, b: string)
    requires o.Rank(a) == o.Rank(b)
    ensures a == b
  {
    if o.ByBytes? {
      EncodeInjective(a, b);
    } else {
      forall i | 0 <= i < |a| ensures a[i] == b[i] {
        assert CodePoints(a)[i] == CodePoints(b)[i];
      }
    }
  }

  /** Strictly increasing in the given order. */
  ghost predicate Increasing(ks: seq<string>, o: KeyOrder) {
    forall i, j {:trigger o.Less(ks[i], ks[j])} :: 0 <= i < j < |ks| ==> o.Less(ks[i], ks[j])
  }

  ghost predicate IsLeast(k: string, s: set<string>, o: KeyOrder) {
    k in s && forall x :: x in s && x != k ==> o.Less(k, x)
  }

  lemma {:induction false} LeastExists(s: set<string>, o: KeyOrder)
    requires s != {}
    ensures exists k :: IsLeast(k, s, o)
  {
    var x :| x in s;
    var rest := s - {x};
    if rest == {} {
      assert s == {x};
      assert IsLeast(x, s, o);
    } else {
      LeastExists(rest, o);
      var y :| IsLeast(y, rest, o);
      LexTrichotomy(o.Rank(x), o.Rank(y));
      if o.Less(x, y) {
        forall z | z in s && z != x ensures o.Less(x, z) {
          if z != y {
            assert z in rest;
            LexTransitive(o.Rank(x), o.Rank(y), o.Rank(z));
          }
        }
        assert IsLeast(x, s, o);
      } else {
        if o.Rank(x) == o.Rank(y) { RankInjective(o, x, y); }
        assert IsLeast(y, s, o);
      }
    }
  }

  lemma LeastUnique(s: set<string>, o: KeyOrder, k: string, l: string)
    requires IsLeast(k, s, o) && IsLeast(l, s, o)
    ensures k == l
  {
    LexTrichotomy(o.Rank(k), o.Rank(l));
  }

  /** `ks` lists exactly the keys of `s`, strictly increasing. */
  ghost predicate IsSorting(ks: seq<string>, s: set<string>, o: KeyOrder) {
    Increasing(ks, o) && forall k :: k in ks <==> k in s
  }

  lemma {:induction false} SortingExists(s: set<string>, o: KeyOrder)
    ensures exists ks :: IsSorting(ks, s, o)
  {
    if s == {} {
      assert IsSorting([], s, o);
    } else {
      LeastExists(s, o);
      var k :| IsLeast(k, s, o);
      SortingExists(s - {k}, o);
      var tail :| IsSorting(tail, s - {k}, o);
      var ks := [k] + tail;
      forall i, j | 0 <= i < j < |ks| ensures o.Less(ks[i], ks[j]) {
        assert ks[j] == tail[j - 1] && tail[j - 1] in tail;
        if i > 0 {
          assert o.Less(tail[i - 1], tail[j - 1]);
        }
      }
      assert IsSorting(ks, s, o);
    }
  }

  /** The sorted enumeration of a key set; what `keys.sort()` returns. */
  ghost function SortKeys(s: set<string>, o: KeyOrder): (ks: seq<string>)
    ensures IsSorting(ks, s, o)
  {
    SortingExists(s, o);
    var ks :| IsSorting(ks, s, o);
    ks
  }

  /** Sorting has one answer: any increasing enumeration of the set is `SortKeys`. */
  lemma SortKeysUnique(s: set<string>, o: KeyOrder, ks: seq<string>)
    requires IsSorting(ks, s, o)
    ensures ks == SortKeys(s, o)
  {
    SortingUnique(s, o, ks, SortKeys(s, o));
  }

  lemma NonemptySorting(s: set<string>, o: KeyOrder, ks: seq<string>)
    requires IsSorting(ks, s, o)
    ensures ks == [] <==> s == {}
  {
    if ks != [] {
      assert ks[0] in ks;
    } else {
      assert forall k :: k in s ==> k in ks;
    }
  }

  lemma {:induction false} SortingUnique(s: set<string>, o: KeyOrder, ks: seq<string>, ls: seq<string>)
    requires IsSorting(ks, s, o) && IsSorting(ls, s, o)
    ensures ks == ls
  {
    NonemptySorting(s, o, ks);
    NonemptySorting(s, o, ls);
    if s != {} {
      LeastOfIncreasing(s, o, ks);
      LeastOfIncreasing(s, o, ls);
      LeastUnique(s, o, ks[0], ls[0]);
      TailOfIncreasing(s, o, ks);
      TailOfIncreasing(s, o, ls);
      SortingUnique(s - {ks[0]}, o, ks[1..], ls[1..]);
      assert ks == [ks[0]] + ks[1..] && ls == [ls[0]] + ls[1..];
    }
  }

  lemma LeastOfIncreasing(s: set<string>, o: KeyOrder, ks: seq<string>)
    requires IsSorting(ks, s, o) && ks != []
    ensures IsLeast(ks[0], s, o)
  {
    assert ks[0] in ks;
    forall x | x in s && x != ks[0] ensures o.Less(ks[0], x) {
      var i :| 0 <= i < |ks| && ks[i] == x;
      assert o.Less(ks[0], ks[i]);
    }
  }

  lemma TailOfIncreasing(s: set<string>, o: KeyOrder, ks: seq<string>)
    requires IsSorting(ks, s, o) && ks != []
    ensures IsSorting(ks[1..], s - {ks[0]}, o)
  {
    var h, t := ks[0], ks[1..];
    assert ks == [h] + t;
    assert h in ks;
    assert h !in t by {
      LexTrichotomy(o.Rank(h), o.Rank(h));
      forall i | 0 <= i < |t| ensures t[i] != h {
        assert o.Less(ks[0], ks[i + 1]);
      }
    }
    forall k ensures k in t <==> k in s - {h} {
      assert k in ks <==> k == h || k in t;
    }
    forall i, j | 0 <= i < j < |t| ensures o.Less(t[i], t[j]) {
      assert o.Less(ks[i + 1], ks[j + 1]);
    }
  }

  /** All implementations put the members of every object in the same order. */
  lemma OrdersAgree(s: set<string>)
    ensures SortKeys(s, ByBytes) == SortKeys(s, ByCodePoints)
  {
    var ks := SortKeys(s, ByBytes);
    forall i, j | 0 <= i < j < |ks| ensures ByCodePoints.Less(ks[i], ks[j]) {
      assert ByBytes.Less(ks[i], ks[j]);
      ByteOrderIsCodePointOrder(ks[i], ks[j]);
    }
    SortKeysUnique(s, ByCodePoints, ks);
  }
}
