/**
  Sealing and re-signing bundles with the command-line tool.

  Hashing, signing, JSON parsing, the clock and boundary atoms are parameters, gathered in
  `Library`; the one law about them is that a fresh signature verifies under the matching key.
 */
module Seal {
  import opened Utf8
  import opened Canonical
  import opened CanonicalPorts
  import opened UniqueDecoding

  datatype Library = Library(
    parseJson: Bytes -> Option<Value>,
    digest: (string, Bytes) -> Option<Bytes>,
    sign: (string, string, Bytes) -> Option<Bytes>,
    verify: (string, string, Bytes, Bytes) -> bool,
    evaluate: (Value, Value) -> Option<bool>,
    parseTime: string -> Option<int>,
    printedSize: Value -> nat)

  /** Signatures made with the private key verify under the public key. */
  ghost predicate KeyPair(lib: Library, alg: string, privateKey: string, publicKey: string) {
    forall m, sig :: lib.sign(alg, privateKey, m) == Some(sig) ==> lib.verify(alg, publicKey, m, sig)
  }

  // ---------------------------------------------------------------- hexadecimal

  function HexChar(d: int): char
    requires 0 <= d < 16
  {
    HexDigit(d) as char
  }

  /** `hex::encode`. */
  function Hex(b: Bytes): string {
    if b == [] then "" else [HexChar(b[0] / 16), HexChar(b[0] % 16)] + Hex(b[1..])
  }

  function HexNibble(c: char): (r: Option<int>)
    ensures r.Some? ==> 0 <= r.value < 16
  {
    if (c as int) < 256 then HexValue(c as int) else None
  }

  /** `hex::decode`: an even number of digits of either case. */
  function Unhex(s: string): Option<Bytes> {
    if s == [] then Some([])
    else if |s| == 1 then None
    else
      match (HexNibble(s[0]), HexNibble(s[1]))
      case (Some(hi), Some(lo)) =>
        (match Unhex(s[2..])
         case Some(b) => Some([hi * 16 + lo] + b)
         case None => None)
      case _ => None
  }

  lemma {:induction false} UnhexHex(b: Bytes)
    ensures Unhex(Hex(b)) == Some(b)
  {
    if b != [] {
      UnhexHex(b[1..]);
      var h := [HexChar(b[0] / 16), HexChar(b[0] % 16)];
      assert Hex(b)[0] == h[0] && Hex(b)[1] == h[1] && Hex(b)[2..] == Hex(b[1..]);
      assert HexNibble(h[0]) == Some(b[0] / 16) && HexNibble(h[1]) == Some(b[0] % 16);
      assert b == [b[0]] + b[1..];
    }
  }

  /** Two lower-case digits for each byte, high half first. */
  lemma {:induction false} HexAt(b: Bytes, i: nat)
    requires i < |b|
    ensures |Hex(b)| == 2 * |b|
    ensures Hex(b)[2 * i] == "0123456789abcdef"[b[i] / 16] && Hex(b)[2 * i + 1] == "0123456789abcdef"[b[i] % 16]
  {
    var j, head, tail := 2 * i, [HexChar(b[0] / 16), HexChar(b[0] % 16)], Hex(b[1..]);
    assert Hex(b) == head + tail;
    if i > 0 {
      HexAt(b[1..], i - 1);
      assert Hex(b)[j] == tail[j - 2] && Hex(b)[j + 1] == tail[j - 1];
      assert b[i] == b[1..][i - 1];
    } else {
      HexCharIs(b[0] / 16);
      HexCharIs(b[0] % 16);
      if |b| > 1 {
        HexAt(b[1..], 0);
      }
    }
  }

  lemma HexCharIs(d: int)
    requires 0 <= d < 16
    ensures HexChar(d) == "0123456789abcdef"[d]
  {
  }

  /** A digit of either case. */
  predicate DigitOf(c: char, d: int)
    requires 0 <= d < 16
  {
    c == "0123456789abcdef"[d] || c == "0123456789ABCDEF"[d]
  }

  ghost predicate SpellsOut(s: string, b: Bytes) {
    |s| == 2 * |b| && forall i :: 0 <= i < |b| ==> DigitOf(s[2 * i], b[i] / 16) && DigitOf(s[2 * i + 1], b[i] % 16)
  }

  /** A text decodes to bytes exactly when it spells them out, two digits a byte in either case. */
  lemma {:induction false} UnhexIff(s: string, b: Bytes)
    ensures Unhex(s) == Some(b) <==> SpellsOut(s, b)
    decreases |s|
  {
    if |s| >= 2 && b != [] {
      UnhexIff(s[2..], b[1..]);
      NibbleIff(s[0], b[0] / 16);
      NibbleIff(s[1], b[0] % 16);
      SpellsOutStep(s, b);
      UnhexStep(s, b);
    }
  }

  lemma UnhexStep(s: string, b: Bytes)
    requires |s| >= 2 && b != []
    ensures Unhex(s) == Some(b) <==> HexNibble(s[0]) == Some(b[0] / 16) && HexNibble(s[1]) == Some(b[0] % 16)
                                     && Unhex(s[2..]) == Some(b[1..])
  {
    assert b == [b[0]] + b[1..];
  }

  lemma NibbleIff(c: char, d: int)
    requires 0 <= d < 16
    ensures HexNibble(c) == Some(d) <==> DigitOf(c, d)
  {
    var lower, upper := "0123456789abcdef", "0123456789ABCDEF";
    assert lower[d] as int == (if d < 10 then 0x30 + d else 0x61 + d - 10);
    assert upper[d] as int == (if d < 10 then 0x30 + d else 0x41 + d - 10);
  }

  lemma SpellsOutStep(s: string, b: Bytes)
    requires |s| >= 2 && b != []
    ensures SpellsOut(s, b) <==> DigitOf(s[0], b[0] / 16) && DigitOf(s[1], b[0] % 16) && SpellsOut(s[2..], b[1..])
  {
    var s', b' := s[2..], b[1..];
    if SpellsOut(s, b) {
      assert DigitOf(s[2 * 0], b[0] / 16);
      forall i | 0 <= i < |b'| ensures DigitOf(s'[2 * i], b'[i] / 16) && DigitOf(s'[2 * i + 1], b'[i] % 16) {
        assert DigitOf(s[2 * (i + 1)], b[i + 1] / 16) && DigitOf(s[2 * (i + 1) + 1], b[i + 1] % 16);
      }
    }
    if SpellsOut(s', b') && DigitOf(s[0], b[0] / 16) && DigitOf(s[1], b[0] % 16) {
      forall i | 0 <= i < |b| ensures DigitOf(s[2 * i], b[i] / 16) && DigitOf(s[2 * i + 1], b[i] % 16) {
        if i > 0 {
          assert DigitOf(s'[2 * (i - 1)], b'[i - 1] / 16) && DigitOf(s'[2 * (i - 1) + 1], b'[i - 1] % 16);
        }
      }
    }
  }

  // ---------------------------------------------------------------- bytes as strings

  /** `String::from_utf8_lossy`; an undecodable byte becomes U+FFFD. */
  function FromUtf8Lossy(b: Bytes): string {
    if b == [] then "" else
    match DecodeChar(b)
    case Some((c, n)) => [c] + FromUtf8Lossy(b[n..])
    case None => ['\U{FFFD}'] + FromUtf8Lossy(b[1..])
  }

  lemma {:induction false} LossyIsExactOnText(s: string)
    ensures FromUtf8Lossy(Utf8.Encode(s)) == s
  {
    if s != [] {
      var e, rest := EncodeChar(s[0]), Utf8.Encode(s[1..]);
      DecodeEncodedChar(s[0], rest);
      assert (e + rest)[|e|..] == rest;
      LossyIsExactOnText(s[1..]);
      assert FromUtf8Lossy(e + rest) == [s[0]] + FromUtf8Lossy(rest);
      assert s == [s[0]] + s[1..];
    }
  }

  /** Canonical bytes are UTF-8, so storing them as a string and taking its bytes loses nothing. */
  lemma CanonicalSurvivesAsString(v: Value)
    requires EncodeCanonical(v).Ok?
    ensures Utf8.Encode(FromUtf8Lossy(EncodeCanonical(v).value)) == EncodeCanonical(v).value
  {
    var same: string -> string := (s: string) => s;
    TypeScriptAgrees(v, same, same);
    AllNormalized(v, same);
    LossyIsExactOnText(TsCanonical(v, same, same));
  }

  lemma {:induction false} AllNormalized(v: Value, same: string -> string)
    requires forall s :: same(s) == s
    ensures Normalized(v, same)
    decreases v
  {
    match v {
      case Arr(items) =>
        forall i | 0 <= i < |items| ensures Normalized(items[i], same) {
          AllNormalized(items[i], same);
        }
      case Obj(fields) =>
        forall k | k in fields ensures NormalizedMember(v, k, same) {
          AllNormalized(fields[k], same);
        }
      case _ =>
    }
  }

  // ---------------------------------------------------------------- sealing

  datatype SealConfig = SealConfig(
    payload: Bytes, boundary: Option<Value>, privateKey: string, digestAlg: string, sigAlg: string, profile: string,
    contextCommit: Option<Bytes>, parents: seq<string>, sideAttestations: seq<Value>, expiration: Option<string>)

  datatype SealError = JsonError | CanonicalFailed(e: CanonicalError) | InvalidParameter(alg: string) | SigningFailed

  /** Canonical bytes of a value and the hex digest of these bytes. */
  ghost function DigestOf(v: Value, alg: string, lib: Library): Result<(Bytes, string), SealError> {
    match EncodeCanonical(v)
    case Err(e) => Err(CanonicalFailed(e))
    case Ok(b) =>
      match lib.digest(alg, b)
      case None => Err(InvalidParameter(alg))
      case Some(d) => Ok((b, Hex(d)))
  }

  function PayloadSection(canonical: Bytes, digest: string, alg: string): Value {
    Obj(map["canonical_json" := Str(FromUtf8Lossy(canonical)), "digest" := Str(digest), "algorithm" := Str(alg)])
  }

  function BoundarySection(spec: Value, digest: string): Value {
    Obj(map["spec" := spec, "digest" := Str(digest)])
  }

  /** At most one field. */
  function Field(k: string, v: Option<Value>): map<string, Value> {
    match v case Some(x) => map[k := x] case None => map[]
  }

  function CommitmentField(cfg: SealConfig): Option<Value> {
    match cfg.contextCommit case Some(c) => Some(Str(Hex(c))) case None => None
  }

  function ParentsField(cfg: SealConfig): Option<Value> {
    if cfg.parents == [] then None
        else Some(Arr(seq(|cfg.parents|, i requires 0 <= i < |cfg.parents| => Str(cfg.parents[i]))))
  }

  function AttestationsField(cfg: SealConfig): Option<Value> {
    if cfg.sideAttestations == [] then None else Some(Arr(cfg.sideAttestations))
  }

  function ExpirationField(cfg: SealConfig): Option<Value> {
    match cfg.expiration case Some(e) => Some(Str(e)) case None => None
  }

  function RequiredFields(cfg: SealConfig, payload: Value): map<string, Value> {
    map["version" := Str("1.0.0"), "profile" := Str(cfg.profile), "digest_algorithm" := Str(cfg.digestAlg),
        "signature_algorithm" := Str(cfg.sigAlg), "payload" := payload]
  }

  /** The bundle without its signature. */
  function UnsignedFields(cfg: SealConfig, payload: Value, boundary: Option<Value>): map<string, Value> {
    RequiredFields(cfg, payload)
    + Field("boundary", boundary)
    + Field("context_commitment", CommitmentField(cfg))
    + Field("parents", ParentsField(cfg))
    + Field("side_attestations", AttestationsField(cfg))
    + Field("expiration", ExpirationField(cfg))
  }

  /** The unsigned fields of a sealed bundle, or why there are none. */
  ghost function Prepare(cfg: SealConfig, lib: Library): Result<map<string, Value>, SealError> {
    match lib.parseJson(cfg.payload)
    case None => Err(JsonError)
    case Some(payload) =>
      match DigestOf(payload, cfg.digestAlg, lib)
      case Err(e) => Err(e)
      case Ok((canonical, digest)) =>
        var section := PayloadSection(canonical, digest, cfg.digestAlg);
        match cfg.boundary
        case None => Ok(UnsignedFields(cfg, section, None))
        case Some(spec) =>
          match DigestOf(spec, cfg.digestAlg, lib)
          case Err(e) => Err(e)
          case Ok((_, boundaryDigest)) => Ok(UnsignedFields(cfg, section, Some(BoundarySection(spec, boundaryDigest))))
  }

  /** Signs an object and stores the signature in it. */
  ghost function SignFields(fields: map<string, Value>, privateKey: string, alg: string,
                            lib: Library): Result<Value, SealError> {
    match EncodeCanonical(Obj(fields))
    case Err(e) => Err(CanonicalFailed(e))
    case Ok(b) =>
      match lib.sign(alg, privateKey, b)
      case None => Err(SigningFailed)
      case Some(sig) => Ok(Obj(fields["signature" := Str(Hex(sig))]))
  }

  ghost function Sealed(cfg: SealConfig, lib: Library): Result<Value, SealError> {
    match Prepare(cfg, lib)
    case Err(e) => Err(e)
    case Ok(fields) => SignFields(fields, cfg.privateKey, cfg.sigAlg, lib)
  }

  method ComputeDigest(v: Value, alg: string, lib: Library) returns (r: Result<(Bytes, string), SealError>)
    ensures r == DigestOf(v, alg, lib)
  {
    var canonical := EncodeToBytes(v);
    if canonical.Err? {
      return Err(CanonicalFailed(canonical.error));
    }
    var d := lib.digest(alg, canonical.value);
    if d.None? {
      return Err(InvalidParameter(alg));
    }
    return Ok((canonical.value, Hex(d.value)));
  }

  method SignObject(fields: map<string, Value>, privateKey: string, alg: string, lib: Library)
      returns (r: Result<Value, SealError>)
    ensures r == SignFields(fields, privateKey, alg, lib)
  {
    var canonical := EncodeToBytes(Obj(fields));
    if canonical.Err? {
      return Err(CanonicalFailed(canonical.error));
    }
    var sig := lib.sign(alg, privateKey, canonical.value);
    if sig.None? {
      return Err(SigningFailed);
    }
    return Ok(Obj(fields["signature" := Str(Hex(sig.value))]));
  }

  /** Inserting a field that may be absent. */
  lemma InsertField(m: map<string, Value>, k: string, v: Option<Value>)
    ensures m + Field(k, v) == if v.Some? then m[k := v.value] else m
  {
  }

  /** The insertions of `seal_bundle`, one by one. */
  method BuildBundle(cfg: SealConfig, section: Value, boundary: Option<Value>) returns (bundle: map<string, Value>)
    ensures bundle == UnsignedFields(cfg, section, boundary)
  {
    bundle := map[];
    bundle := bundle["version" := Str("1.0.0")];
    bundle := bundle["profile" := Str(cfg.profile)];
    bundle := bundle["digest_algorithm" := Str(cfg.digestAlg)];
    bundle := bundle["signature_algorithm" := Str(cfg.sigAlg)];
    bundle := bundle["payload" := section];
    InsertField(bundle, "boundary", boundary);
    if boundary.Some? {
      bundle := bundle["boundary" := boundary.value];
    }
    InsertField(bundle, "context_commitment", CommitmentField(cfg));
    if cfg.contextCommit.Some? {
      bundle := bundle["context_commitment" := Str(Hex(cfg.contextCommit.value))];
    }
    InsertField(bundle, "parents", ParentsField(cfg));
    if cfg.parents != [] {
      bundle := bundle["parents" := ParentsField(cfg).value];
    }
    InsertField(bundle, "side_attestations", AttestationsField(cfg));
    if cfg.sideAttestations != [] {
      bundle := bundle["side_attestations" := Arr(cfg.sideAttestations)];
    }
    InsertField(bundle, "expiration", ExpirationField(cfg));
    if cfg.expiration.Some? {
      bundle := bundle["expiration" := Str(cfg.expiration.value)];
    }
  }

  /** `seal_bundle`: the fields are collected, canonicalised and signed. */
  method SealBundle(cfg: SealConfig, lib: Library) returns (r: Result<Value, SealError>)
    ensures r == Sealed(cfg, lib)
  {
    var payload := lib.parseJson(cfg.payload);
    if payload.None? {
      return Err(JsonError);
    }
    var digested := ComputeDigest(payload.value, cfg.digestAlg, lib);
    if digested.Err? {
      return Err(digested.error);
    }
    var section := PayloadSection(digested.value.0, digested.value.1, cfg.digestAlg);
    var boundary: Option<Value> := None;
    if cfg.boundary.Some? {
      var b := ComputeDigest(cfg.boundary.value, cfg.digestAlg, lib);
      if b.Err? {
        return Err(b.error);
      }
      boundary := Some(BoundarySection(cfg.boundary.value, b.value.1));
    }
    var bundle := BuildBundle(cfg, section, boundary);
    r := SignObject(bundle, cfg.privateKey, cfg.sigAlg, lib);
  }

  // ---------------------------------------------------------------- when sealing succeeds

  lemma SafeAfterField(m: map<string, Value>, k: string, v: Option<Value>)
    requires k !in m
    ensures SafeNumbers(Obj(m + Field(k, v))) <==> SafeNumbers(Obj(m)) && (v.Some? ==> SafeNumbers(v.value))
    ensures (m + Field(k, v)).Keys <= m.Keys + {k}
  {
    var f := m + Field(k, v);
    if v.Some? {
      assert f[k] == v.value;
    }
    forall j | j in m ensures j in f && f[j] == m[j] {
    }
  }

  /** The unsigned fields carry no numbers but those of the boundary and the attestations. */
  lemma UnsignedSafe(cfg: SealConfig, section: Value, boundary: Option<Value>)
    requires SafeNumbers(section)
    ensures SafeNumbers(Obj(UnsignedFields(cfg, section, boundary)))
            <==> (boundary.Some? ==> SafeNumbers(boundary.value))
                 && forall i :: 0 <= i < |cfg.sideAttestations| ==> SafeNumbers(cfg.sideAttestations[i])
  {
    RequiredSafe(cfg, section);
    NamesDiffer();
    SafeAfterFields(RequiredFields(cfg, section), "boundary", boundary, "context_commitment", CommitmentField(cfg),
                    "parents", ParentsField(cfg),
                    "side_attestations", AttestationsField(cfg), "expiration", ExpirationField(cfg));
    OptionalSafe(cfg);
  }

  lemma SafeAfterFields(m: map<string, Value>, k1: string, v1: Option<Value>, k2: string, v2: Option<Value>, k3: string,
                        v3: Option<Value>,
                        k4: string, v4: Option<Value>, k5: string, v5: Option<Value>)
    requires m.Keys !! {k1, k2, k3, k4, k5} && k2 != k1 && k3 !in {k1, k2} && k4 !in {k1, k2, k3}
             && k5 !in {k1, k2, k3, k4}
    ensures SafeNumbers(Obj(m + Field(k1, v1) + Field(k2, v2) + Field(k3, v3) + Field(k4, v4) + Field(k5, v5)))
            <==> SafeNumbers(Obj(m)) && (v1.Some? ==> SafeNumbers(v1.value)) && (v2.Some? ==> SafeNumbers(v2.value))
                 && (v3.Some? ==> SafeNumbers(v3.value)) && (v4.Some? ==> SafeNumbers(v4.value))
                    && (v5.Some? ==> SafeNumbers(v5.value))
  {
    var m1 := m + Field(k1, v1);
    var m2 := m1 + Field(k2, v2);
    var m3 := m2 + Field(k3, v3);
    var m4 := m3 + Field(k4, v4);
    SafeAfterField(m, k1, v1);
    SafeAfterField(m1, k2, v2);
    SafeAfterField(m2, k3, v3);
    SafeAfterField(m3, k4, v4);
    SafeAfterField(m4, k5, v5);
  }

  lemma OptionalSafe(cfg: SealConfig)
    ensures CommitmentField(cfg).Some? ==> SafeNumbers(CommitmentField(cfg).value)
    ensures ParentsField(cfg).Some? ==> SafeNumbers(ParentsField(cfg).value)
    ensures ExpirationField(cfg).Some? ==> SafeNumbers(ExpirationField(cfg).value)
    ensures (AttestationsField(cfg).Some? ==> SafeNumbers(AttestationsField(cfg).value))
            <==> forall i :: 0 <= i < |cfg.sideAttestations| ==> SafeNumbers(cfg.sideAttestations[i])
  {
  }

  lemma NamesDiffer()
    ensures "context_commitment" != "boundary"
    ensures "parents" !in {"boundary", "context_commitment"}
    ensures "side_attestations" !in {"boundary", "context_commitment", "parents"}
    ensures "expiration" !in {"boundary", "context_commitment", "parents", "side_attestations"}
  {
  }

  lemma RequiredSafe(cfg: SealConfig, section: Value)
    requires SafeNumbers(section)
    ensures SafeNumbers(Obj(RequiredFields(cfg, section)))
    ensures var m := RequiredFields(cfg, section);
            "boundary" !in m && "context_commitment" !in m && "parents" !in m && "side_attestations" !in m
                && "expiration" !in m
  {
    var m := RequiredFields(cfg, section);
    forall k | k in m ensures SafeNumbers(m[k]) {
      assert m[k].Str? || m[k] == section;
    }
    assert "parents" != "version" && "parents" != "profile" && "parents" != "payload";
  }

  /** With known algorithms and a working key, sealing fails only on text that is no JSON or on an unsafe number. */
  lemma SealsIffSafe(cfg: SealConfig, lib: Library)
    requires forall b :: lib.digest(cfg.digestAlg, b).Some?
    requires forall b :: lib.sign(cfg.sigAlg, cfg.privateKey, b).Some?
    ensures Sealed(cfg, lib).Ok? <==>
              && lib.parseJson(cfg.payload).Some? && SafeNumbers(lib.parseJson(cfg.payload).value)
              && (cfg.boundary.Some? ==> SafeNumbers(cfg.boundary.value))
              && forall i :: 0 <= i < |cfg.sideAttestations| ==> SafeNumbers(cfg.sideAttestations[i])
  {
    if lib.parseJson(cfg.payload).Some? {
      var payload := lib.parseJson(cfg.payload).value;
      EncodableIffSafe(payload);
      if cfg.boundary.Some? {
        EncodableIffSafe(cfg.boundary.value);
      }
      if Prepare(cfg, lib).Ok? {
        PreparedSafe(cfg, lib);
        EncodableIffSafe(Obj(Prepare(cfg, lib).value));
      }
    }
  }

  lemma PreparedSafe(cfg: SealConfig, lib: Library)
    requires Prepare(cfg, lib).Ok?
    ensures SafeNumbers(Obj(Prepare(cfg, lib).value))
            <==> (cfg.boundary.Some? ==> SafeNumbers(cfg.boundary.value))
                 && forall i :: 0 <= i < |cfg.sideAttestations| ==> SafeNumbers(cfg.sideAttestations[i])
  {
    var (canonical, digest) := DigestOf(lib.parseJson(cfg.payload).value, cfg.digestAlg, lib).value;
    var section := PayloadSection(canonical, digest, cfg.digestAlg);
    SectionSafe(canonical, digest, cfg.digestAlg);
    match cfg.boundary {
      case None => UnsignedSafe(cfg, section, None);
      case Some(spec) =>
        var (_, d) := DigestOf(spec, cfg.digestAlg, lib).value;
        BoundarySectionSafe(spec, d);
        UnsignedSafe(cfg, section, Some(BoundarySection(spec, d)));
    }
  }

  lemma SectionSafe(canonical: Bytes, digest: string, alg: string)
    ensures SafeNumbers(PayloadSection(canonical, digest, alg))
  {
    var m := PayloadSection(canonical, digest, alg).fields;
    forall k | k in m ensures SafeNumbers(m[k]) {
      assert m[k].Str?;
    }
  }

  lemma BoundarySectionSafe(spec: Value, digest: string)
    ensures SafeNumbers(BoundarySection(spec, digest)) <==> SafeNumbers(spec)
  {
    var m := BoundarySection(spec, digest).fields;
    assert "spec" != "digest";
    assert m["spec"] == spec;
    forall k | k in m ensures k == "spec" || SafeNumbers(m[k]) {
      assert k != "spec" ==> m[k].Str?;
    }
  }

  // ---------------------------------------------------------------- re-signing

  /** Everything but the signature. */
  function Strip(bundle: Value): Value {
    if bundle.Obj? then Obj(bundle.fields - {"signature"}) else bundle
  }

  /** The bundle after `re_sign_bundle`, or the error; a value that is no object is signed but not changed. */
  ghost function ReSigned(bundle: Value, privateKey: string, alg: string, lib: Library): Result<Value, SealError> {
    match EncodeCanonical(Strip(bundle))
    case Err(e) => Err(CanonicalFailed(e))
    case Ok(b) =>
      match lib.sign(alg, privateKey, b)
      case None => Err(SigningFailed)
      case Some(sig) => Ok(if bundle.Obj? then Obj(Strip(bundle).fields["signature" := Str(Hex(sig))]) else bundle)
  }

  /** The caller's bundle, changed in place. */
  class BundleCell {
    var bundle: Value

    constructor (bundle: Value)
      ensures this.bundle == bundle
    {
      this.bundle := bundle;
    }

    /** `re_sign_bundle`. When signing fails, the old signature is already gone. */
    method ReSign(privateKey: string, alg: string, lib: Library) returns (error: Option<SealError>)
      modifies this
      ensures match ReSigned(old(bundle), privateKey, alg, lib)
              case Ok(b) => error == None && bundle == b
              case Err(e) => error == Some(e) && bundle == Strip(old(bundle))
    {
      if bundle.Obj? {
        bundle := Obj(bundle.fields - {"signature"});
      }
      var canonical := EncodeToBytes(bundle);
      if canonical.Err? {
        return Some(CanonicalFailed(canonical.error));
      }
      var sig := lib.sign(alg, privateKey, canonical.value);
      if sig.None? {
        return Some(SigningFailed);
      }
      if bundle.Obj? {
        bundle := Obj(bundle.fields["signature" := Str(Hex(sig.value))]);
      }
      return None;
    }
  }

  // ---------------------------------------------------------------- what signed bytes determine

  /** Two bundles with the same signed bytes agree on every field except the signature. */
  lemma SignedBytesDetermineBundle(a: Value, b: Value)
    requires a.Obj? && b.Obj?
    requires EncodeCanonical(Strip(a)).Ok? && EncodeCanonical(Strip(a)) == EncodeCanonical(Strip(b))
    ensures forall k :: k != "signature" ==>
              (k in a.fields <==> k in b.fields) && (k in a.fields ==> a.fields[k] == b.fields[k])
  {
    EncodingInjective(Strip(a), Strip(b));
    forall k | k != "signature"
      ensures (k in a.fields <==> k in b.fields) && (k in a.fields ==> a.fields[k] == b.fields[k])
    {
      assert k in a.fields <==> k in Strip(a).fields;
      assert k in b.fields <==> k in Strip(b).fields;
    }
  }

  /** Any change of a field other than the signature changes the signed bytes. */
  lemma TamperingChangesSignedBytes(a: Value, b: Value, k: string)
    requires a.Obj? && b.Obj? && k != "signature"
    requires EncodeCanonical(Strip(a)).Ok? && EncodeCanonical(Strip(b)).Ok?
    requires k in a.fields ==> k !in b.fields || a.fields[k] != b.fields[k]
    requires k in a.fields || k in b.fields
    ensures EncodeCanonical(Strip(a)) != EncodeCanonical(Strip(b))
  {
    if EncodeCanonical(Strip(a)) == EncodeCanonical(Strip(b)) {
      SignedBytesDetermineBundle(a, b);
      assert false;
    }
  }

  /** Re-signing changes the signature and nothing else. */
  lemma ReSignKeepsFields(bundle: Value, privateKey: string, alg: string, lib: Library)
    requires bundle.Obj? && ReSigned(bundle, privateKey, alg, lib).Ok?
    ensures var b := ReSigned(bundle, privateKey, alg, lib).value;
            && b.Obj? && Strip(b) == Strip(bundle)
            && b.fields.Keys == bundle.fields.Keys + {"signature"}
            && forall k :: k in bundle.fields && k != "signature" ==> b.fields[k] == bundle.fields[k]
  {
    var b := ReSigned(bundle, privateKey, alg, lib).value;
    assert b.fields - {"signature"} == bundle.fields - {"signature"};
  }
}
