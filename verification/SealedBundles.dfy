/**
  What a sealed bundle holds, field by field, and why sealing fails.

  `IsSeal` lists the contents of the bundle and how each follows from the options; exactly one bundle
  meets it. It does not mention the steps that build the bundle.
 */
module SealedBundles {
  import opened Utf8
  import opened Canonical
  import opened Seal
  import opened Verify

  // ---------------------------------------------------------------- contents

  /** The lower-case hexadecimal digest of the value's canonical text. */
  ghost predicate IsDigest(v: Value, text: string, cfg: SealConfig, lib: Library) {
    exists m, d :: EncodeCanonical(v) == Ok(m) && lib.digest(cfg.digestAlg, m) == Some(d) && text == Hex(d)
  }

  /** The payload section: the canonical text, its digest and the name of the digest. */
  ghost predicate IsPayload(p: Value, cfg: SealConfig, lib: Library) {
    exists payload, text, digest ::
      && lib.parseJson(cfg.payload) == Some(payload)
      && EncodeCanonical(payload) == Ok(Utf8.Encode(text)) && IsDigest(payload, digest, cfg, lib)
      && p == Obj(map["canonical_json" := Str(text), "digest" := Str(digest), "algorithm" := Str(cfg.digestAlg)])
  }

  ghost predicate IsBoundary(p: Value, spec: Value, cfg: SealConfig, lib: Library) {
    exists digest :: IsDigest(spec, digest, cfg, lib) && p == Obj(map["spec" := spec, "digest" := Str(digest)])
  }

  ghost predicate RequiredHold(fields: map<string, Value>, cfg: SealConfig, lib: Library) {
    && {"version", "profile", "digest_algorithm", "signature_algorithm", "payload"} <= fields.Keys
    && fields["version"] == Str("1.0.0") && fields["profile"] == Str(cfg.profile)
    && fields["digest_algorithm"] == Str(cfg.digestAlg) && fields["signature_algorithm"] == Str(cfg.sigAlg)
    && IsPayload(fields["payload"], cfg, lib)
  }

  /** The array lists these texts in this order. */
  predicate ListsTexts(v: Value, texts: seq<string>) {
    v.Arr? && |v.items| == |texts| && forall i :: 0 <= i < |texts| ==> v.items[i] == Str(texts[i])
  }

  /** An option that was given is in the bundle, and one that was not is not. */
  ghost predicate OptionalHold(fields: map<string, Value>, cfg: SealConfig, lib: Library) {
    && ("boundary" in fields <==> cfg.boundary.Some?)
    && ("boundary" in fields ==> IsBoundary(fields["boundary"], cfg.boundary.value, cfg, lib))
    && ("context_commitment" in fields <==> cfg.contextCommit.Some?)
    && ("context_commitment" in fields ==> fields["context_commitment"] == Str(Hex(cfg.contextCommit.value)))
    && ("parents" in fields <==> cfg.parents != [])
    && ("parents" in fields ==> ListsTexts(fields["parents"], cfg.parents))
    && ("side_attestations" in fields <==> cfg.sideAttestations != [])
    && ("side_attestations" in fields ==> fields["side_attestations"] == Arr(cfg.sideAttestations))
    && ("expiration" in fields <==> cfg.expiration.Some?)
    && ("expiration" in fields ==> fields["expiration"] == Str(cfg.expiration.value))
  }

  const NAMES: set<string> :=
    {"version", "profile", "digest_algorithm", "signature_algorithm", "payload", "boundary", "context_commitment",
     "parents", "side_attestations", "expiration"}

  /** The bundle before it is signed: these fields and no others. */
  ghost predicate IsUnsigned(fields: map<string, Value>, cfg: SealConfig, lib: Library) {
    fields.Keys <= NAMES && RequiredHold(fields, cfg, lib) && OptionalHold(fields, cfg, lib)
  }

  /** The unsigned bundle together with a signature of its canonical text. */
  ghost predicate IsSeal(b: Value, cfg: SealConfig, lib: Library) {
    exists fields, m, sig ::
      && IsUnsigned(fields, cfg, lib) && EncodeCanonical(Obj(fields)) == Ok(m)
      && lib.sign(cfg.sigAlg, cfg.privateKey, m) == Some(sig)
      && b == Obj(fields["signature" := Str(Hex(sig))])
  }

  // ---------------------------------------------------------------- sealing writes exactly this

  lemma PreparedIsUnsigned(cfg: SealConfig, lib: Library)
    requires Prepare(cfg, lib).Ok?
    ensures IsUnsigned(Prepare(cfg, lib).value, cfg, lib)
  {
    var payload := lib.parseJson(cfg.payload).value;
    var section := Section(cfg, payload, lib);
    var boundary := if cfg.boundary.None? then None else
      Some(BoundarySection(cfg.boundary.value, DigestOf(cfg.boundary.value, cfg.digestAlg, lib).value.1));
    PayloadHolds(cfg, payload, lib);
    BoundaryHolds(cfg, lib);
    ParentsHold(cfg);
    UnsignedNames(cfg, section, boundary);
    UnsignedHolds(cfg, section, boundary, lib);
  }

  lemma UnsignedHolds(cfg: SealConfig, section: Value, boundary: Option<Value>, lib: Library)
    requires IsPayload(section, cfg, lib) && (boundary.Some? <==> cfg.boundary.Some?)
    requires boundary.Some? ==> IsBoundary(boundary.value, cfg.boundary.value, cfg, lib)
    requires cfg.parents != [] ==> ParentsField(cfg).Some? && ListsTexts(ParentsField(cfg).value, cfg.parents)
    ensures RequiredHold(UnsignedFields(cfg, section, boundary), cfg, lib)
    ensures OptionalHold(UnsignedFields(cfg, section, boundary), cfg, lib)
  {
    var u := UnsignedFields(cfg, section, boundary);
    RequiredEntries(cfg, section);
    HoldsRequired(cfg, section, boundary, "version");
    HoldsRequired(cfg, section, boundary, "profile");
    HoldsRequired(cfg, section, boundary, "digest_algorithm");
    HoldsRequired(cfg, section, boundary, "signature_algorithm");
    HoldsRequired(cfg, section, boundary, "payload");
    assert RequiredHold(u, cfg, lib);
    HoldsOptional(cfg, section, boundary);
    assert OptionalHold(u, cfg, lib);
  }

  lemma UnsignedNames(cfg: SealConfig, payload: Value, boundary: Option<Value>)
    ensures UnsignedFields(cfg, payload, boundary).Keys <= NAMES
  {
    assert Field("boundary", boundary).Keys <= NAMES;
    assert Field("context_commitment", CommitmentField(cfg)).Keys <= NAMES;
    assert Field("parents", ParentsField(cfg)).Keys <= NAMES;
    assert Field("side_attestations", AttestationsField(cfg)).Keys <= NAMES;
    assert Field("expiration", ExpirationField(cfg)).Keys <= NAMES;
  }

  lemma PayloadHolds(cfg: SealConfig, payload: Value, lib: Library)
    requires lib.parseJson(cfg.payload) == Some(payload) && DigestOf(payload, cfg.digestAlg, lib).Ok?
    ensures IsPayload(Section(cfg, payload, lib), cfg, lib)
  {
    CanonicalSurvivesAsString(payload);
    var (canonical, digest) := DigestOf(payload, cfg.digestAlg, lib).value;
    assert IsDigest(payload, digest, cfg, lib);
    assert EncodeCanonical(payload) == Ok(Utf8.Encode(FromUtf8Lossy(canonical)));
  }

  lemma BoundaryHolds(cfg: SealConfig, lib: Library)
    ensures cfg.boundary.Some? && DigestOf(cfg.boundary.value, cfg.digestAlg, lib).Ok? ==>
              var digest := DigestOf(cfg.boundary.value, cfg.digestAlg, lib).value.1;
              IsBoundary(BoundarySection(cfg.boundary.value, digest), cfg.boundary.value, cfg, lib)
  {
    if cfg.boundary.Some? && DigestOf(cfg.boundary.value, cfg.digestAlg, lib).Ok? {
      assert IsDigest(cfg.boundary.value, DigestOf(cfg.boundary.value, cfg.digestAlg, lib).value.1, cfg, lib);
    }
  }

  lemma ParentsHold(cfg: SealConfig)
    ensures cfg.parents != [] ==> ParentsField(cfg).Some? && ListsTexts(ParentsField(cfg).value, cfg.parents)
  {
  }

  /** The contents leave nothing open. */
  lemma UnsignedIsUnique(f: map<string, Value>, g: map<string, Value>, cfg: SealConfig, lib: Library)
    requires IsUnsigned(f, cfg, lib) && IsUnsigned(g, cfg, lib)
    ensures f == g
  {
    SamePayload(f["payload"], g["payload"], cfg, lib);
    if "parents" in f {
      assert f["parents"].items == g["parents"].items;
    }
    forall k ensures k in f <==> k in g {
      SameNames(f, g, k, cfg, lib);
    }
    forall k | k in f ensures f[k] == g[k] {
      SameNames(f, g, k, cfg, lib);
    }
  }

  lemma SameNames(f: map<string, Value>, g: map<string, Value>, k: string, cfg: SealConfig, lib: Library)
    requires IsUnsigned(f, cfg, lib) && IsUnsigned(g, cfg, lib) && f["payload"] == g["payload"]
    requires "parents" in f && "parents" in g ==> f["parents"].Arr? && g["parents"].Arr?
    requires "parents" in f && "parents" in g ==> f["parents"].items == g["parents"].items
    ensures k in f <==> k in g
    ensures k in f ==> f[k] == g[k]
  {
    if k in f || k in g {
      assert k in NAMES;
    }
  }

  lemma SamePayload(p: Value, q: Value, cfg: SealConfig, lib: Library)
    requires IsPayload(p, cfg, lib) && IsPayload(q, cfg, lib)
    ensures p == q
  {
    var payload, text, digest :|
      && lib.parseJson(cfg.payload) == Some(payload)
      && EncodeCanonical(payload) == Ok(Utf8.Encode(text)) && IsDigest(payload, digest, cfg, lib)
      && p == Obj(map["canonical_json" := Str(text), "digest" := Str(digest), "algorithm" := Str(cfg.digestAlg)]);
    var payload', text', digest' :|
      && lib.parseJson(cfg.payload) == Some(payload')
      && EncodeCanonical(payload') == Ok(Utf8.Encode(text')) && IsDigest(payload', digest', cfg, lib)
      && q == Obj(map["canonical_json" := Str(text'), "digest" := Str(digest'), "algorithm" := Str(cfg.digestAlg)]);
    DecodeEncoded(text);
    DecodeEncoded(text');
    assert digest == digest';
  }

  /** Preparing succeeds exactly with these contents. */
  lemma PreparedIff(cfg: SealConfig, fields: map<string, Value>, lib: Library)
    ensures Prepare(cfg, lib) == Ok(fields) <==> IsUnsigned(fields, cfg, lib)
  {
    if Prepare(cfg, lib).Ok? {
      PreparedIsUnsigned(cfg, lib);
      if IsUnsigned(fields, cfg, lib) {
        UnsignedIsUnique(fields, Prepare(cfg, lib).value, cfg, lib);
      }
    }
  }

  /** Sealing answers a bundle exactly when it has these contents, and the signature of them. */
  lemma SealedIff(cfg: SealConfig, b: Value, lib: Library)
    ensures Sealed(cfg, lib) == Ok(b) <==> IsSeal(b, cfg, lib)
  {
    if Sealed(cfg, lib) == Ok(b) {
      SealedIsSeal(cfg, b, lib);
    }
    if IsSeal(b, cfg, lib) {
      SealIsSealed(cfg, b, lib);
    }
  }

  lemma SealedIsSeal(cfg: SealConfig, b: Value, lib: Library)
    requires Sealed(cfg, lib) == Ok(b)
    ensures IsSeal(b, cfg, lib)
  {
    var fields := Prepare(cfg, lib).value;
    PreparedIff(cfg, fields, lib);
    var m := EncodeCanonical(Obj(fields)).value;
    var sig := lib.sign(cfg.sigAlg, cfg.privateKey, m).value;
    assert b == Obj(fields["signature" := Str(Hex(sig))]);
  }

  lemma SealIsSealed(cfg: SealConfig, b: Value, lib: Library)
    requires IsSeal(b, cfg, lib)
    ensures Sealed(cfg, lib) == Ok(b)
  {
    var fields, m, sig :|
      && IsUnsigned(fields, cfg, lib) && EncodeCanonical(Obj(fields)) == Ok(m)
      && lib.sign(cfg.sigAlg, cfg.privateKey, m) == Some(sig)
      && b == Obj(fields["signature" := Str(Hex(sig))]);
    PreparedIff(cfg, fields, lib);
    assert SignFields(fields, cfg.privateKey, cfg.sigAlg, lib) == Ok(b);
  }

  // ---------------------------------------------------------------- why sealing fails

  /** The value has a canonical text of which the chosen digest is known. */
  ghost predicate Digestible(v: Value, cfg: SealConfig, lib: Library) {
    EncodeCanonical(v).Ok? && lib.digest(cfg.digestAlg, EncodeCanonical(v).value).Some?
  }

  /** The value has a canonical text, and the digest of it is unknown. */
  ghost predicate Undigestible(v: Value, cfg: SealConfig, lib: Library) {
    EncodeCanonical(v).Ok? && lib.digest(cfg.digestAlg, EncodeCanonical(v).value).None?
  }

  /** The options of which a bundle is built: the payload is JSON, and both digests can be taken. */
  ghost predicate Buildable(cfg: SealConfig, lib: Library) {
    && lib.parseJson(cfg.payload).Some? && Digestible(lib.parseJson(cfg.payload).value, cfg, lib)
    && (cfg.boundary.Some? ==> Digestible(cfg.boundary.value, cfg, lib))
  }

  lemma JsonErrorIff(cfg: SealConfig, lib: Library)
    ensures Sealed(cfg, lib) == Err(JsonError) <==> lib.parseJson(cfg.payload).None?
  {
  }

  /** The digest of the payload cannot be taken, or that of the payload can and that of the boundary cannot. */
  lemma InvalidParameterIff(cfg: SealConfig, lib: Library, alg: string)
    ensures Sealed(cfg, lib) == Err(InvalidParameter(alg)) <==>
              && alg == cfg.digestAlg && lib.parseJson(cfg.payload).Some?
              && var payload := lib.parseJson(cfg.payload).value;
                 || Undigestible(payload, cfg, lib)
                 || (Digestible(payload, cfg, lib) && cfg.boundary.Some? && Undigestible(cfg.boundary.value, cfg, lib))
  {
  }

  /** Everything was built and encoded, and the key does not sign. */
  lemma SigningFailedIff(cfg: SealConfig, lib: Library)
    ensures Sealed(cfg, lib) == Err(SigningFailed) <==>
              exists fields, m ::
                && IsUnsigned(fields, cfg, lib) && EncodeCanonical(Obj(fields)) == Ok(m)
                && lib.sign(cfg.sigAlg, cfg.privateKey, m).None?
  {
    if Prepare(cfg, lib).Ok? {
      PreparedIff(cfg, Prepare(cfg, lib).value, lib);
    }
    forall fields | IsUnsigned(fields, cfg, lib) ensures Prepare(cfg, lib) == Ok(fields) {
      PreparedIff(cfg, fields, lib);
    }
  }

  /** An unsafe number, in the payload, or after its digest in the boundary, or after that in the attestations. */
  lemma CanonicalFailedIff(cfg: SealConfig, lib: Library)
    ensures (exists e :: Sealed(cfg, lib) == Err(CanonicalFailed(e))) <==>
              && lib.parseJson(cfg.payload).Some?
              && var payload := lib.parseJson(cfg.payload).value;
                 || !SafeNumbers(payload)
                 || (Digestible(payload, cfg, lib) && cfg.boundary.Some? && !SafeNumbers(cfg.boundary.value))
                 || (Buildable(cfg, lib)
                     && exists i :: 0 <= i < |cfg.sideAttestations| && !SafeNumbers(cfg.sideAttestations[i]))
  {
    if lib.parseJson(cfg.payload).Some? {
      EncodableIffSafe(lib.parseJson(cfg.payload).value);
      if cfg.boundary.Some? {
        EncodableIffSafe(cfg.boundary.value);
      }
      if Prepare(cfg, lib).Ok? {
        PreparedSafe(cfg, lib);
        EncodableIffSafe(Obj(Prepare(cfg, lib).value));
      }
    }
  }

  // ---------------------------------------------------------------- re-signing

  /** A re-signed object holds a signature of its other fields, and these are as before. */
  lemma ReSignedIff(bundle: Value, b: Value, privateKey: string, alg: string, lib: Library)
    requires bundle.Obj?
    ensures ReSigned(bundle, privateKey, alg, lib) == Ok(b) <==>
              exists m, sig ::
                && EncodeCanonical(Obj(bundle.fields - {"signature"})) == Ok(m)
                && lib.sign(alg, privateKey, m) == Some(sig)
                && b == Obj(bundle.fields["signature" := Str(Hex(sig))])
  {
    forall sig: string
      ensures (bundle.fields - {"signature"})["signature" := Str(sig)] == bundle.fields["signature" := Str(sig)]
    {
    }
  }

  /** Re-signing fails on an unsafe number, or when the key does not sign; what is no object stays as it is. */
  lemma ReSignErrorIff(bundle: Value, privateKey: string, alg: string, lib: Library)
    ensures var signed := EncodeCanonical(if bundle.Obj? then Obj(bundle.fields - {"signature"}) else bundle);
            var r := ReSigned(bundle, privateKey, alg, lib);
            && (r == Err(SigningFailed) <==> signed.Ok? && lib.sign(alg, privateKey, signed.value).None?)
            && (forall e :: r == Err(CanonicalFailed(e)) <==> signed == Err(e))
            && (r.Ok? <==> signed.Ok? && lib.sign(alg, privateKey, signed.value).Some?)
            && (r.Ok? && !bundle.Obj? ==> r.value == bundle)
  {
  }
}
