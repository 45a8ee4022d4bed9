/**
  The command-line verifier, and the end-to-end theorem: which sealed bundles it accepts.
 */
module Verify {
  import opened Utf8
  import opened Canonical
  import opened UniqueDecoding
  import opened Seal

  const VERIFIED: int := 0
  const MALFORMED: int := 10
  const INVALID_SIGNATURE: int := 11
  const OUT_OF_BOUNDS: int := 12
  const UNKNOWN_VERSION: int := 13
  const MISSING_SIDE_INFO: int := 14
  const LINEAGE_INVALID: int := 15
  const RESOURCE_EXHAUSTED: int := 16
  const POLICY_DENIED: int := 17

  datatype VerifyConfig = VerifyConfig(
    publicKey: Option<string>, context: Option<Value>, profile: Option<string>, maxBytes: Option<nat>,
    maxDepth: Option<nat>, now: int)

  // ---------------------------------------------------------------- access to JSON

  function Get(v: Value, k: string): Option<Value> {
    if v.Obj? && k in v.fields then Some(v.fields[k]) else None
  }

  /** `.and_then(|v| v.as_str())`. */
  function AsStr(v: Option<Value>): Option<string> {
    if v.Some? && v.value.Str? then Some(v.value.s) else None
  }

  function StrOr(v: Option<Value>, default: string): string {
    match AsStr(v) case Some(s) => s case None => default
  }

  // ---------------------------------------------------------------- nesting depth

  /** The nesting depth of the value is at most `n`; scalars and empty containers have depth 1. */
  ghost predicate DepthWithin(v: Value, n: int)
    decreases v
  {
    n >= 1 &&
    match v
    case Arr(items) => forall i :: 0 <= i < |items| ==> DepthWithin(items[i], n - 1)
    case Obj(fields) => forall k :: k in fields ==> DepthWithin(fields[k], n - 1)
    case _ => true
  }

  lemma {:induction false} DepthMonotone(v: Value, m: int, n: int)
    requires DepthWithin(v, m) && m <= n
    ensures DepthWithin(v, n)
    decreases v
  {
    match v {
      case Arr(items) =>
        forall i | 0 <= i < |items| ensures DepthWithin(items[i], n - 1) {
          DepthMonotone(items[i], m - 1, n - 1);
        }
      case Obj(fields) =>
        forall k | k in fields ensures DepthWithin(fields[k], n - 1) {
          DepthMonotone(fields[k], m - 1, n - 1);
        }
      case _ =>
    }
  }

  /** `compute_bundle_depth`: the least bound on the depth. */
  method ComputeBundleDepth(v: Value) returns (depth: nat)
    ensures DepthWithin(v, depth) && !DepthWithin(v, depth - 1)
    decreases v
  {
    depth := 1;
    match v {
      case Obj(fields) =>
        var todo := fields.Keys;
        ghost var deepest: Option<string> := None;
        while todo != {}
          invariant todo <= fields.Keys
          invariant depth >= 1
          invariant forall k :: k in fields && k !in todo ==> DepthWithin(fields[k], depth - 1)
          invariant depth > 1 ==>
                      deepest.Some? && deepest.value in fields && !DepthWithin(fields[deepest.value], depth - 2)
          decreases todo
        {
          var k :| k in todo;
          var d := ComputeBundleDepth(fields[k]);
          if d + 1 > depth {
            forall l | l in fields && l !in todo ensures DepthWithin(fields[l], d) {
              DepthMonotone(fields[l], depth - 1, d);
            }
            depth, deepest := d + 1, Some(k);
          } else {
            DepthMonotone(fields[k], d, depth - 1);
          }
          todo := todo - {k};
        }
      case Arr(items) =>
        ghost var deepest := -1;
        for i := 0 to |items|
          invariant depth >= 1
          invariant forall j :: 0 <= j < i ==> DepthWithin(items[j], depth - 1)
          invariant depth > 1 ==> 0 <= deepest < i && !DepthWithin(items[deepest], depth - 2)
        {
          var d := ComputeBundleDepth(items[i]);
          if d + 1 > depth {
            forall j | 0 <= j < i ensures DepthWithin(items[j], d) {
              DepthMonotone(items[j], depth - 1, d);
            }
            depth, deepest := d + 1, i;
          } else {
            DepthMonotone(items[i], d, depth - 1);
          }
        }
      case _ =>
    }
  }

  // ---------------------------------------------------------------- the checks, in order

  type FailureCode = c: int | MALFORMED <= c <= POLICY_DENIED witness MALFORMED

  /** An exit code when the check ends the verification. */
  type Check = Option<FailureCode>

  function CheckSize(b: Value, cfg: VerifyConfig, lib: Library): Check {
    if cfg.maxBytes.Some? && lib.printedSize(b) > cfg.maxBytes.value then Some(RESOURCE_EXHAUSTED) else None
  }

  function CheckVersion(b: Value): Check {
    match AsStr(Get(b, "version"))
    case None => Some(MALFORMED)
    case Some(v) => if v == "1.0.0" then None else Some(UNKNOWN_VERSION)
  }

  function CheckRequired(b: Value): Check {
    if Get(b, "payload").None? || Get(b, "digest_algorithm").None? || Get(b, "signature_algorithm").None?
        || Get(b, "signature").None?
    then Some(MALFORMED) else None
  }

  function CheckExpectedProfile(b: Value, cfg: VerifyConfig): Check {
    if cfg.profile.None? then None else
    match AsStr(Get(b, "profile"))
    case None => Some(MALFORMED)
    case Some(p) => if p == cfg.profile.value then None else Some(POLICY_DENIED)
  }

  predicate HasHitl(atts: seq<Value>) {
    exists i :: 0 <= i < |atts| && AsStr(Get(atts[i], "type")) == Some("hitl_approval")
  }

  function CheckNesting(b: Value): Check {
    match AsStr(Get(b, "profile"))
    case None => None
    case Some(p) =>
      if p == "core" then
        if Get(b, "boundary").Some? || Get(b, "parents").Some? || Get(b, "side_attestations").Some?
        then Some(POLICY_DENIED) else None
      else if p == "sealed" then
        if Get(b, "boundary").None? || Get(b, "parents").Some? then Some(POLICY_DENIED) else None
      else if p == "chained" then
        if Get(b, "parents").None? then Some(POLICY_DENIED) else None
      else if p == "full" then
        match Get(b, "side_attestations")
        case Some(Obj(atts)) =>
          (match Get(Obj(atts), "attestations")
           case Some(Arr(side)) =>
             if !HasHitl(side) && Get(Obj(atts), "require_hitl") == Some(Bool(true))
             then Some(MISSING_SIDE_INFO) else None
           case _ => None)
        case _ => None
      else Some(UNKNOWN_VERSION)
  }

  ghost function CheckDepth(b: Value, cfg: VerifyConfig): Check {
    if cfg.maxDepth.Some? && !DepthWithin(b, cfg.maxDepth.value) then Some(OUT_OF_BOUNDS) else None
  }

  ghost function CheckSignature(b: Value, cfg: VerifyConfig, lib: Library): Check {
    if cfg.publicKey.None? then None else
    match EncodeCanonical(Strip(b))
    case Err(_) => Some(MALFORMED)
    case Ok(canonical) =>
      match Unhex(StrOr(Get(b, "signature"), ""))
      case None => Some(MALFORMED)
      case Some(sig) =>
        if lib.verify(StrOr(Get(b, "signature_algorithm"), ""), cfg.publicKey.value, canonical, sig) then None
            else Some(INVALID_SIGNATURE)
  }

  function DigestAlg(b: Value): string {
    StrOr(Get(b, "digest_algorithm"), "sha256")
  }

  function CheckPayload(b: Value, lib: Library): Check {
    match Get(b, "payload")
    case Some(Obj(p)) =>
      (match AsStr(Get(Obj(p), "canonical_json"))
       case None => None
       case Some(json) =>
         match lib.digest(DigestAlg(b), Utf8.Encode(json))
         case None => Some(MALFORMED)
         case Some(d) => if Hex(d) == StrOr(Get(Obj(p), "digest"), "") then None else Some(INVALID_SIGNATURE))
    case _ => Some(MALFORMED)
  }

  ghost function CheckBoundary(b: Value, cfg: VerifyConfig, lib: Library): Check {
    match Get(b, "boundary")
    case Some(Obj(section)) =>
      (match Get(Obj(section), "spec")
       case None => None
       case Some(spec) =>
         match EncodeCanonical(spec)
         case Err(_) => Some(MALFORMED)
         case Ok(canonical) =>
           match lib.digest(DigestAlg(b), canonical)
           case None => Some(MALFORMED)
           case Some(d) =>
             if Hex(d) != StrOr(Get(Obj(section), "digest"), "") then Some(INVALID_SIGNATURE)
             else if cfg.context.Some? && lib.evaluate(cfg.context.value, spec).None? then Some(POLICY_DENIED)
             else None)
    case _ => None
  }

  ghost function CheckCommitment(b: Value, cfg: VerifyConfig, lib: Library): Check {
    match AsStr(Get(b, "context_commitment"))
    case None => None
    case Some(commitment) =>
      if cfg.context.None? then Some(MISSING_SIDE_INFO) else
      match EncodeCanonical(cfg.context.value)
      case Err(_) => Some(MALFORMED)
      case Ok(canonical) =>
        match lib.digest(DigestAlg(b), canonical)
        case None => Some(MALFORMED)
        case Some(d) => if Hex(d) == commitment then None else Some(INVALID_SIGNATURE)
  }

  predicate Typed(att: Value) {
    StrOr(Get(att, "type"), "") != ""
  }

  function CheckAttestations(b: Value): Check {
    match Get(b, "side_attestations")
    case Some(Arr(atts)) => if forall i :: 0 <= i < |atts| ==> Typed(atts[i]) then None else Some(MALFORMED)
    case _ => None
  }

  function CheckExpiration(b: Value, cfg: VerifyConfig, lib: Library): Check {
    match AsStr(Get(b, "expiration"))
    case None => None
    case Some(e) =>
      match lib.parseTime(e)
      case None => Some(MALFORMED)
      case Some(t) => if cfg.now > t then Some(POLICY_DENIED) else None
  }

  function CheckParents(b: Value): Check {
    match AsStr(Get(b, "profile"))
    case None => None
    case Some(p) =>
      if (p == "chained" || p == "full") && Get(b, "parents") == Some(Arr([])) then Some(LINEAGE_INVALID) else None
  }

  /** The first of two checks that ends the verification. */
  function Or(first: Check, next: Check): Check {
    if first.Some? then first else next
  }

  /** The checks up to the nesting depth, in the order of `verify_bundle`. */
  ghost function ShapeCheck(b: Value, cfg: VerifyConfig, lib: Library): Check {
    Or(CheckSize(b, cfg, lib), Or(CheckVersion(b), Or(CheckRequired(b),
    Or(CheckExpectedProfile(b, cfg), Or(CheckNesting(b), CheckDepth(b, cfg))))))
  }

  /** The checks from the signature on. */
  ghost function ContentCheck(b: Value, cfg: VerifyConfig, lib: Library): Check {
    Or(CheckSignature(b, cfg, lib), Or(CheckPayload(b, lib), Or(CheckBoundary(b, cfg, lib),
    Or(CheckCommitment(b, cfg, lib), Or(CheckAttestations(b), Or(CheckExpiration(b, cfg, lib), CheckParents(b)))))))
  }

  /** The answer of `verify_bundle`. */
  ghost function ExitCode(b: Value, cfg: VerifyConfig, lib: Library): int {
    match Or(ShapeCheck(b, cfg, lib), ContentCheck(b, cfg, lib))
    case None => VERIFIED
    case Some(code) => code
  }

  /** The checks up to the nesting depth pass. */
  ghost predicate ShapePasses(b: Value, cfg: VerifyConfig, lib: Library) {
    && CheckSize(b, cfg, lib) == None && CheckVersion(b) == None && CheckRequired(b) == None
    && CheckExpectedProfile(b, cfg) == None && CheckNesting(b) == None && CheckDepth(b, cfg) == None
  }

  /** The checks from the signature on pass. */
  ghost predicate ContentPasses(b: Value, cfg: VerifyConfig, lib: Library) {
    && CheckSignature(b, cfg, lib) == None && CheckPayload(b, lib) == None && CheckBoundary(b, cfg, lib) == None
    && CheckCommitment(b, cfg, lib) == None && CheckAttestations(b) == None && CheckExpiration(b, cfg, lib) == None
    && CheckParents(b) == None
  }

  lemma VerifiedIffAllPass(b: Value, cfg: VerifyConfig, lib: Library)
    ensures ExitCode(b, cfg, lib) == VERIFIED <==> ShapePasses(b, cfg, lib) && ContentPasses(b, cfg, lib)
  {
  }

  // ---------------------------------------------------------------- the verifier

  /** The signature is removed from a copy, which is canonicalised again. */
  method VerifySignature(b: Value, cfg: VerifyConfig, lib: Library) returns (check: Check)
    ensures check == CheckSignature(b, cfg, lib)
  {
    if cfg.publicKey.None? {
      return None;
    }
    var copy := b;
    if copy.Obj? {
      copy := Obj(copy.fields - {"signature"});
    }
    var canonical := EncodeToBytes(copy);
    if canonical.Err? {
      return Some(MALFORMED);
    }
    var sig := Unhex(StrOr(Get(b, "signature"), ""));
    if sig.None? {
      return Some(MALFORMED);
    }
    if !lib.verify(StrOr(Get(b, "signature_algorithm"), ""), cfg.publicKey.value, canonical.value, sig.value) {
      return Some(INVALID_SIGNATURE);
    }
    return None;
  }

  method VerifyBoundary(b: Value, cfg: VerifyConfig, lib: Library) returns (check: Check)
    ensures check == CheckBoundary(b, cfg, lib)
  {
    var section := Get(b, "boundary");
    if section.None? || Get(section.value, "spec").None? {
      return None;
    }
    var spec := Get(section.value, "spec").value;
    var canonical := EncodeToBytes(spec);
    if canonical.Err? {
      return Some(MALFORMED);
    }
    var d := lib.digest(DigestAlg(b), canonical.value);
    if d.None? {
      return Some(MALFORMED);
    }
    if Hex(d.value) != StrOr(Get(section.value, "digest"), "") {
      return Some(INVALID_SIGNATURE);
    }
    if cfg.context.Some? && lib.evaluate(cfg.context.value, spec).None? {
      return Some(POLICY_DENIED);
    }
    return None;
  }

  method VerifyCommitment(b: Value, cfg: VerifyConfig, lib: Library) returns (check: Check)
    ensures check == CheckCommitment(b, cfg, lib)
  {
    var commitment := AsStr(Get(b, "context_commitment"));
    if commitment.None? {
      return None;
    }
    if cfg.context.None? {
      return Some(MISSING_SIDE_INFO);
    }
    var canonical := EncodeToBytes(cfg.context.value);
    if canonical.Err? {
      return Some(MALFORMED);
    }
    var d := lib.digest(DigestAlg(b), canonical.value);
    if d.None? {
      return Some(MALFORMED);
    }
    return if Hex(d.value) == commitment.value then None else Some(INVALID_SIGNATURE);
  }

  method VerifyAttestations(b: Value) returns (check: Check)
    ensures check == CheckAttestations(b)
  {
    var field := Get(b, "side_attestations");
    if field.Some? && field.value.Arr? {
      var atts := field.value.items;
      for i := 0 to |atts|
        invariant forall j :: 0 <= j < i ==> Typed(atts[j])
      {
        if !Typed(atts[i]) {
          return Some(MALFORMED);
        }
      }
    }
    return None;
  }

  method VerifyDepth(b: Value, cfg: VerifyConfig) returns (check: Check)
    ensures check == CheckDepth(b, cfg)
  {
    if cfg.maxDepth.Some? {
      var depth := ComputeBundleDepth(b);
      if depth > cfg.maxDepth.value {
        if DepthWithin(b, cfg.maxDepth.value) {
          DepthMonotone(b, cfg.maxDepth.value, depth - 1);
        }
        return Some(OUT_OF_BOUNDS);
      }
      DepthMonotone(b, depth, cfg.maxDepth.value);
    }
    return None;
  }

  method VerifyShape(b: Value, cfg: VerifyConfig, lib: Library) returns (check: Check)
    ensures check == ShapeCheck(b, cfg, lib)
  {
    check := CheckSize(b, cfg, lib);
    if check.Some? { return; }
    check := CheckVersion(b);
    if check.Some? { return; }
    check := CheckRequired(b);
    if check.Some? { return; }
    check := CheckExpectedProfile(b, cfg);
    if check.Some? { return; }
    check := CheckNesting(b);
    if check.Some? { return; }
    check := VerifyDepth(b, cfg);
  }

  method VerifyContent(b: Value, cfg: VerifyConfig, lib: Library) returns (check: Check)
    ensures check == ContentCheck(b, cfg, lib)
  {
    check := VerifySignature(b, cfg, lib);
    if check.Some? { return; }
    check := CheckPayload(b, lib);
    if check.Some? { return; }
    check := VerifyBoundary(b, cfg, lib);
    if check.Some? { return; }
    check := VerifyCommitment(b, cfg, lib);
    if check.Some? { return; }
    check := VerifyAttestations(b);
    if check.Some? { return; }
    check := CheckExpiration(b, cfg, lib);
    if check.Some? { return; }
    check := CheckParents(b);
  }

  /** `verify_bundle`: the first check that fails decides the exit code, and no later one is made. */
  method VerifyBundle(b: Value, cfg: VerifyConfig, lib: Library) returns (code: int)
    ensures code == ExitCode(b, cfg, lib)
  {
    var check := VerifyShape(b, cfg, lib);
    if check.None? {
      check := VerifyContent(b, cfg, lib);
    }
    return if check.Some? then check.value else VERIFIED;
  }

  // ---------------------------------------------------------------- sealed bundles

  function Entry(m: map<string, Value>, k: string): Option<Value> {
    if k in m then Some(m[k]) else None
  }

  lemma EntryAfterField(m: map<string, Value>, k: string, v: Option<Value>, j: string)
    ensures Entry(m + Field(k, v), j) == if j == k && v.Some? then v else Entry(m, j)
  {
  }

  /** The last optional field of that name, or the required one. */
  lemma UnsignedEntry(cfg: SealConfig, payload: Value, boundary: Option<Value>, j: string)
    ensures Entry(UnsignedFields(cfg, payload, boundary), j) ==
              if j == "expiration" && ExpirationField(cfg).Some? then ExpirationField(cfg)
              else if j == "side_attestations" && AttestationsField(cfg).Some? then AttestationsField(cfg)
              else if j == "parents" && ParentsField(cfg).Some? then ParentsField(cfg)
              else if j == "context_commitment" && CommitmentField(cfg).Some? then CommitmentField(cfg)
              else if j == "boundary" && boundary.Some? then boundary
              else Entry(RequiredFields(cfg, payload), j)
  {
    var m0 := RequiredFields(cfg, payload);
    var m1 := m0 + Field("boundary", boundary);
    var m2 := m1 + Field("context_commitment", CommitmentField(cfg));
    var m3 := m2 + Field("parents", ParentsField(cfg));
    var m4 := m3 + Field("side_attestations", AttestationsField(cfg));
    EntryAfterField(m0, "boundary", boundary, j);
    EntryAfterField(m1, "context_commitment", CommitmentField(cfg), j);
    EntryAfterField(m2, "parents", ParentsField(cfg), j);
    EntryAfterField(m3, "side_attestations", AttestationsField(cfg), j);
    EntryAfterField(m4, "expiration", ExpirationField(cfg), j);
  }

  lemma RequiredEntries(cfg: SealConfig, payload: Value)
    ensures var m := RequiredFields(cfg, payload);
            && Entry(m, "version") == Some(Str("1.0.0")) && Entry(m, "profile") == Some(Str(cfg.profile))
            && Entry(m, "digest_algorithm") == Some(Str(cfg.digestAlg))
               && Entry(m, "signature_algorithm") == Some(Str(cfg.sigAlg))
            && Entry(m, "payload") == Some(payload)
  {
    assert "version" != "profile" && "version" != "payload" && "profile" != "payload";
  }

  lemma OptionalNamesAreNotRequired(cfg: SealConfig, payload: Value, j: string)
    requires j in {"boundary", "context_commitment", "parents", "side_attestations", "expiration", "signature"}
    ensures Entry(RequiredFields(cfg, payload), j) == None
  {
    assert "parents" != "version" && "parents" != "profile" && "parents" != "payload";
  }

  /** What the sealed bundle holds under each name. */
  ghost predicate HoldsFields(b: Value, cfg: SealConfig, payload: Value, boundary: Option<Value>) {
    && Get(b, "version") == Some(Str("1.0.0")) && Get(b, "profile") == Some(Str(cfg.profile))
    && Get(b, "digest_algorithm") == Some(Str(cfg.digestAlg)) && Get(b, "signature_algorithm") == Some(Str(cfg.sigAlg))
    && Get(b, "payload") == Some(payload) && Get(b, "boundary") == boundary
    && Get(b, "context_commitment") == CommitmentField(cfg) && Get(b, "parents") == ParentsField(cfg)
    && Get(b, "side_attestations") == AttestationsField(cfg) && Get(b, "expiration") == ExpirationField(cfg)
  }

  lemma HoldsRequired(cfg: SealConfig, payload: Value, boundary: Option<Value>, j: string)
    requires j in {"version", "profile", "digest_algorithm", "signature_algorithm", "payload"}
    ensures Entry(UnsignedFields(cfg, payload, boundary), j) == Entry(RequiredFields(cfg, payload), j)
  {
    UnsignedEntry(cfg, payload, boundary, j);
    assert "parents" != "version" && "parents" != "profile" && "parents" != "payload";
  }

  lemma HoldsOptional(cfg: SealConfig, payload: Value, boundary: Option<Value>)
    ensures var u := UnsignedFields(cfg, payload, boundary);
            && Entry(u, "boundary") == boundary && Entry(u, "context_commitment") == CommitmentField(cfg)
            && Entry(u, "parents") == ParentsField(cfg) && Entry(u, "side_attestations") == AttestationsField(cfg)
            && Entry(u, "expiration") == ExpirationField(cfg) && Entry(u, "signature") == None
  {
    UnsignedEntry(cfg, payload, boundary, "boundary");
    OptionalNamesAreNotRequired(cfg, payload, "boundary");
    UnsignedEntry(cfg, payload, boundary, "context_commitment");
    OptionalNamesAreNotRequired(cfg, payload, "context_commitment");
    UnsignedEntry(cfg, payload, boundary, "parents");
    OptionalNamesAreNotRequired(cfg, payload, "parents");
    UnsignedEntry(cfg, payload, boundary, "side_attestations");
    OptionalNamesAreNotRequired(cfg, payload, "side_attestations");
    UnsignedEntry(cfg, payload, boundary, "expiration");
    OptionalNamesAreNotRequired(cfg, payload, "expiration");
    UnsignedEntry(cfg, payload, boundary, "signature");
    OptionalNamesAreNotRequired(cfg, payload, "signature");
  }

  lemma GetSigned(u: map<string, Value>, sig: Value, j: string)
    requires j != "signature"
    ensures Get(Obj(u["signature" := sig]), j) == Entry(u, j)
  {
  }

  /** Each field of a sealed bundle, by name; stripping the signature gives the unsigned fields back. */
  lemma SealedFields(cfg: SealConfig, payload: Value, boundary: Option<Value>, sig: string)
    ensures var b := Obj(UnsignedFields(cfg, payload, boundary)["signature" := Str(sig)]);
            && HoldsFields(b, cfg, payload, boundary)
            && Get(b, "signature") == Some(Str(sig))
            && Strip(b) == Obj(UnsignedFields(cfg, payload, boundary))
  {
    var u := UnsignedFields(cfg, payload, boundary);
    RequiredEntries(cfg, payload);
    HoldsRequired(cfg, payload, boundary, "version");
    HoldsRequired(cfg, payload, boundary, "profile");
    HoldsRequired(cfg, payload, boundary, "digest_algorithm");
    HoldsRequired(cfg, payload, boundary, "signature_algorithm");
    HoldsRequired(cfg, payload, boundary, "payload");
    HoldsOptional(cfg, payload, boundary);
    GetSigned(u, Str(sig), "version");
    GetSigned(u, Str(sig), "profile");
    GetSigned(u, Str(sig), "digest_algorithm");
    GetSigned(u, Str(sig), "signature_algorithm");
    GetSigned(u, Str(sig), "payload");
    GetSigned(u, Str(sig), "boundary");
    GetSigned(u, Str(sig), "context_commitment");
    GetSigned(u, Str(sig), "parents");
    GetSigned(u, Str(sig), "side_attestations");
    GetSigned(u, Str(sig), "expiration");
    assert "signature" !in u;
    assert u["signature" := Str(sig)] - {"signature"} == u;
  }

  /** What the profile of a sealed bundle allows. */
  predicate ProfileAllows(cfg: SealConfig) {
    if cfg.profile == "core" then cfg.boundary.None? && cfg.parents == [] && cfg.sideAttestations == []
    else if cfg.profile == "sealed" then cfg.boundary.Some? && cfg.parents == []
    else if cfg.profile == "chained" then cfg.parents != []
    else cfg.profile == "full"
  }

  /** A boundary and a context, when both are there, evaluate without error. */
  ghost predicate BoundaryEvaluates(cfg: SealConfig, v: VerifyConfig, lib: Library) {
    cfg.boundary.Some? && v.context.Some? ==> lib.evaluate(v.context.value, cfg.boundary.value).Some?
  }

  /** A commitment is to the context that is supplied. */
  ghost predicate CommitmentFits(cfg: SealConfig, v: VerifyConfig, lib: Library) {
    cfg.contextCommit.Some? ==>
      && v.context.Some? && EncodeCanonical(v.context.value).Ok?
      && lib.digest(cfg.digestAlg, EncodeCanonical(v.context.value).value) == Some(cfg.contextCommit.value)
  }

  /** Size, profile and depth are as the verifier asks. */
  ghost predicate ShapeFits(cfg: SealConfig, b: Value, v: VerifyConfig, lib: Library) {
    && (v.maxBytes.Some? ==> lib.printedSize(b) <= v.maxBytes.value)
    && (v.profile.Some? ==> v.profile.value == cfg.profile)
    && ProfileAllows(cfg)
    && (v.maxDepth.Some? ==> DepthWithin(b, v.maxDepth.value))
  }

  /** Exactly the options under which a freshly sealed bundle verifies. */
  ghost predicate Acceptable(cfg: SealConfig, b: Value, v: VerifyConfig, lib: Library) {
    BoundaryEvaluates(cfg, v, lib) && OtherwiseAcceptable(cfg, b, v, lib)
  }

  ghost predicate OtherwiseAcceptable(cfg: SealConfig, b: Value, v: VerifyConfig, lib: Library) {
    && ShapeFits(cfg, b, v, lib)
    && CommitmentFits(cfg, v, lib)
    && (forall i :: 0 <= i < |cfg.sideAttestations| ==> Typed(cfg.sideAttestations[i]))
    && (cfg.expiration.Some?
        ==> lib.parseTime(cfg.expiration.value).Some? && v.now <= lib.parseTime(cfg.expiration.value).value)
  }

  lemma SectionFields(canonical: Bytes, digest: string, alg: string)
    ensures Get(PayloadSection(canonical, digest, alg), "canonical_json") == Some(Str(FromUtf8Lossy(canonical)))
    ensures Get(PayloadSection(canonical, digest, alg), "digest") == Some(Str(digest))
  {
    assert "canonical_json" != "digest" && "digest" != "algorithm" && "canonical_json" != "algorithm";
  }

  lemma PayloadCheckPasses(cfg: SealConfig, b: Value, payload: Value, lib: Library)
    requires DigestOf(payload, cfg.digestAlg, lib).Ok?
    requires var (canonical, digest) := DigestOf(payload, cfg.digestAlg, lib).value;
             Get(b, "payload") == Some(PayloadSection(canonical, digest, cfg.digestAlg))
    requires Get(b, "digest_algorithm") == Some(Str(cfg.digestAlg))
    ensures CheckPayload(b, lib) == None
  {
    var (canonical, digest) := DigestOf(payload, cfg.digestAlg, lib).value;
    CanonicalSurvivesAsString(payload);
    SectionFields(canonical, digest, cfg.digestAlg);
  }

  lemma BoundaryCheckExact(cfg: SealConfig, b: Value, v: VerifyConfig, lib: Library)
    requires cfg.boundary.Some? ==> DigestOf(cfg.boundary.value, cfg.digestAlg, lib).Ok?
    requires Get(b, "boundary") == if cfg.boundary.None? then None else
               Some(BoundarySection(cfg.boundary.value, DigestOf(cfg.boundary.value, cfg.digestAlg, lib).value.1))
    requires Get(b, "digest_algorithm") == Some(Str(cfg.digestAlg))
    ensures CheckBoundary(b, v, lib) == if BoundaryEvaluates(cfg, v, lib) then None else Some(POLICY_DENIED)
  {
    assert "spec" != "digest";
  }

  lemma {:induction false} HexInjective(a: Bytes, b: Bytes)
    ensures Hex(a) == Hex(b) <==> a == b
  {
    UnhexHex(a);
    UnhexHex(b);
  }

  lemma CommitmentCheckExact(cfg: SealConfig, b: Value, v: VerifyConfig, lib: Library)
    requires Get(b, "context_commitment") == CommitmentField(cfg)
    requires Get(b, "digest_algorithm") == Some(Str(cfg.digestAlg))
    ensures CheckCommitment(b, v, lib) == None <==> CommitmentFits(cfg, v, lib)
  {
    if cfg.contextCommit.Some? && v.context.Some? && EncodeCanonical(v.context.value).Ok? {
      var d := lib.digest(cfg.digestAlg, EncodeCanonical(v.context.value).value);
      if d.Some? {
        HexInjective(d.value, cfg.contextCommit.value);
      }
    }
  }

  lemma NestingCheckExact(cfg: SealConfig, b: Value, boundary: Option<Value>)
    requires Get(b, "profile") == Some(Str(cfg.profile)) && Get(b, "boundary") == boundary
             && (boundary.Some? <==> cfg.boundary.Some?)
    requires Get(b, "parents") == ParentsField(cfg) && Get(b, "side_attestations") == AttestationsField(cfg)
    ensures CheckNesting(b) == None <==> ProfileAllows(cfg)
    ensures CheckParents(b) == None
  {
    assert "core" != "sealed" && "core" != "chained" && "core" != "full" && "sealed" != "chained" && "sealed" != "full"
           && "chained" != "full";
    if cfg.parents != [] {
      assert |ParentsField(cfg).value.items| == |cfg.parents|;
    }
  }

  lemma SignatureCheckPasses(b: Value, canonical: Bytes, sig: Bytes, alg: string, v: VerifyConfig, lib: Library)
    requires EncodeCanonical(Strip(b)) == Ok(canonical)
    requires Get(b, "signature") == Some(Str(Hex(sig))) && Get(b, "signature_algorithm") == Some(Str(alg))
    requires v.publicKey.Some? ==> lib.verify(alg, v.publicKey.value, canonical, sig)
    ensures CheckSignature(b, v, lib) == None
  {
    UnhexHex(sig);
  }

  // ---------------------------------------------------------------- main results

  /** What sealing leaves in a bundle, and what it signed. */
  datatype SealedParts = SealedParts(payload: Value, boundary: Option<Value>, signed: Bytes, sig: Bytes)

  ghost predicate SealedFrom(cfg: SealConfig, b: Value, parts: SealedParts, lib: Library) {
    && lib.parseJson(cfg.payload) == Some(parts.payload) && DigestOf(parts.payload, cfg.digestAlg, lib).Ok?
    && (cfg.boundary.Some? ==> DigestOf(cfg.boundary.value, cfg.digestAlg, lib).Ok?)
    && parts.boundary == (if cfg.boundary.None? then None else
         Some(BoundarySection(cfg.boundary.value, DigestOf(cfg.boundary.value, cfg.digestAlg, lib).value.1)))
    && lib.sign(cfg.sigAlg, cfg.privateKey, parts.signed) == Some(parts.sig)
    && HoldsFields(b, cfg, Section(cfg, parts.payload, lib), parts.boundary)
    && Get(b, "signature") == Some(Str(Hex(parts.sig)))
    && EncodeCanonical(Strip(b)) == Ok(parts.signed)
  }

  ghost function Section(cfg: SealConfig, payload: Value, lib: Library): Value
    requires DigestOf(payload, cfg.digestAlg, lib).Ok?
  {
    var (canonical, digest) := DigestOf(payload, cfg.digestAlg, lib).value;
    PayloadSection(canonical, digest, cfg.digestAlg)
  }

  /** The parts of a freshly sealed bundle. */
  lemma PartsOf(cfg: SealConfig, lib: Library) returns (parts: SealedParts)
    requires Sealed(cfg, lib).Ok?
    ensures SealedFrom(cfg, Sealed(cfg, lib).value, parts, lib)
  {
    var b := Sealed(cfg, lib).value;
    var payload := lib.parseJson(cfg.payload).value;
    var boundary := if cfg.boundary.None? then None else
      Some(BoundarySection(cfg.boundary.value, DigestOf(cfg.boundary.value, cfg.digestAlg, lib).value.1));
    var unsigned := UnsignedFields(cfg, Section(cfg, payload, lib), boundary);
    var signed := EncodeCanonical(Obj(unsigned)).value;
    var sig := lib.sign(cfg.sigAlg, cfg.privateKey, signed).value;
    SealedFields(cfg, Section(cfg, payload, lib), boundary, Hex(sig));
    assert b == Obj(unsigned["signature" := Str(Hex(sig))]);
    parts := SealedParts(payload, boundary, signed, sig);
  }

  /**
    A freshly sealed bundle verifies, under any verifier options with the matching public key,
    exactly when the options are acceptable; in particular the signature and both digests always check.
   */
  lemma SealThenVerify(cfg: SealConfig, v: VerifyConfig, lib: Library)
    requires Sealed(cfg, lib).Ok?
    requires v.publicKey.Some? ==> KeyPair(lib, cfg.sigAlg, cfg.privateKey, v.publicKey.value)
    ensures ExitCode(Sealed(cfg, lib).value, v, lib) == VERIFIED <==> Acceptable(cfg, Sealed(cfg, lib).value, v, lib)
  {
    var parts := PartsOf(cfg, lib);
    SealedChecks(cfg, Sealed(cfg, lib).value, parts, v, lib);
    VerifiedIffAllPass(Sealed(cfg, lib).value, v, lib);
  }

  lemma SealedChecks(cfg: SealConfig, b: Value, parts: SealedParts, v: VerifyConfig, lib: Library)
    requires SealedFrom(cfg, b, parts, lib)
    requires v.publicKey.Some? ==> KeyPair(lib, cfg.sigAlg, cfg.privateKey, v.publicKey.value)
    ensures ShapePasses(b, v, lib) && ContentPasses(b, v, lib) <==> Acceptable(cfg, b, v, lib)
    ensures CheckSignature(b, v, lib) == None && CheckPayload(b, lib) == None
    ensures ShapePasses(b, v, lib) <==> ShapeFits(cfg, b, v, lib)
  {
    ShapeExact(cfg, b, Section(cfg, parts.payload, lib), parts.boundary, v, lib);
    PayloadCheckPasses(cfg, b, parts.payload, lib);
    BoundaryCheckExact(cfg, b, v, lib);
    CommitmentCheckExact(cfg, b, v, lib);
    AttestationsAndExpirationExact(cfg, b, v, lib);
    SignatureCheckPasses(b, parts.signed, parts.sig, cfg.sigAlg, v, lib);
  }

  lemma ShapeExact(cfg: SealConfig, b: Value, payload: Value, boundary: Option<Value>, v: VerifyConfig, lib: Library)
    requires HoldsFields(b, cfg, payload, boundary) && (boundary.Some? <==> cfg.boundary.Some?)
    requires Get(b, "signature").Some?
    ensures ShapePasses(b, v, lib) <==> ShapeFits(cfg, b, v, lib)
    ensures CheckParents(b) == None
  {
    NestingCheckExact(cfg, b, boundary);
  }

  lemma AttestationsAndExpirationExact(cfg: SealConfig, b: Value, v: VerifyConfig, lib: Library)
    requires Get(b, "side_attestations") == AttestationsField(cfg) && Get(b, "expiration") == ExpirationField(cfg)
    ensures CheckAttestations(b) == None
            <==> forall i :: 0 <= i < |cfg.sideAttestations| ==> Typed(cfg.sideAttestations[i])
    ensures CheckExpiration(b, v, lib) == None
            <==> (cfg.expiration.Some?
                  ==> lib.parseTime(cfg.expiration.value).Some? && v.now <= lib.parseTime(cfg.expiration.value).value)
  {
  }

  /** A bundle re-signed with the algorithm it declares passes the signature check. */
  lemma ReSignedPassesSignatureCheck(bundle: Value, privateKey: string, alg: string, v: VerifyConfig, lib: Library)
    requires bundle.Obj? && ReSigned(bundle, privateKey, alg, lib).Ok?
    requires Get(bundle, "signature_algorithm") == Some(Str(alg))
    requires v.publicKey.Some? ==> KeyPair(lib, alg, privateKey, v.publicKey.value)
    ensures CheckSignature(ReSigned(bundle, privateKey, alg, lib).value, v, lib) == None
  {
    var b := ReSigned(bundle, privateKey, alg, lib).value;
    ReSignKeepsFields(bundle, privateKey, alg, lib);
    var signed := EncodeCanonical(Strip(bundle)).value;
    var sig := lib.sign(alg, privateKey, signed).value;
    assert "signature" != "signature_algorithm";
    SignatureCheckPasses(b, signed, sig, alg, v, lib);
  }

  /** This verifier never asks whether a boundary is true, only whether it evaluates. */
  lemma BoundaryTruthIsIgnored(b: Value, cfg: VerifyConfig, lib: Library, lib': Library)
    requires lib' == lib.(evaluate := lib'.evaluate)
    requires forall context, spec :: lib.evaluate(context, spec).Some? <==> lib'.evaluate(context, spec).Some?
    ensures ExitCode(b, cfg, lib) == ExitCode(b, cfg, lib')
  {
    BoundaryCheckIgnoresTruth(b, cfg, lib, lib');
    OtherChecksIgnoreTruth(b, cfg, lib, lib');
  }

  lemma OtherChecksIgnoreTruth(b: Value, cfg: VerifyConfig, lib: Library, lib': Library)
    requires lib' == lib.(evaluate := lib'.evaluate)
    ensures CheckSize(b, cfg, lib) == CheckSize(b, cfg, lib')
    ensures CheckSignature(b, cfg, lib) == CheckSignature(b, cfg, lib')
    ensures CheckPayload(b, lib) == CheckPayload(b, lib')
    ensures CheckCommitment(b, cfg, lib) == CheckCommitment(b, cfg, lib')
    ensures CheckExpiration(b, cfg, lib) == CheckExpiration(b, cfg, lib')
  {
    assert lib.printedSize == lib'.printedSize && lib.verify == lib'.verify && lib.digest == lib'.digest
           && lib.parseTime == lib'.parseTime;
  }

  lemma BoundaryCheckIgnoresTruth(b: Value, cfg: VerifyConfig, lib: Library, lib': Library)
    requires lib' == lib.(evaluate := lib'.evaluate)
    requires forall context, spec :: lib.evaluate(context, spec).Some? <==> lib'.evaluate(context, spec).Some?
    ensures CheckBoundary(b, cfg, lib) == CheckBoundary(b, cfg, lib')
  {
  }

  /**
    The verdict on a sealed bundle whose boundary meets a context and which is acceptable otherwise:
    "policy-denied" when the boundary does not evaluate, and verified for either truth value.
   */
  lemma BoundaryVerdict(cfg: SealConfig, b: Value, v: VerifyConfig, lib: Library)
    requires Sealed(cfg, lib) == Ok(b) && cfg.boundary.Some? && v.context.Some?
    requires v.publicKey.Some? ==> KeyPair(lib, cfg.sigAlg, cfg.privateKey, v.publicKey.value)
    requires OtherwiseAcceptable(cfg, b, v, lib)
    ensures ExitCode(b, v, lib) == if lib.evaluate(v.context.value, cfg.boundary.value).Some? then VERIFIED
            else POLICY_DENIED
  {
    var parts := PartsOf(cfg, lib);
    VerdictFromParts(cfg, b, parts, v, lib);
  }

  /** Being verified means that the boundary is true. */
  ghost predicate VerifiedMeansTrue(cfg: SealConfig, b: Value, v: VerifyConfig, lib: Library)
    requires cfg.boundary.Some? && v.context.Some?
  {
    ExitCode(b, v, lib) == VERIFIED ==> lib.evaluate(v.context.value, cfg.boundary.value) == Some(true)
  }

  /**
    So on such a bundle being verified means that the boundary is true exactly when the boundary is not
    false: when it is true, or when it fails to evaluate and the bundle is denied.
   */
  lemma VerifiedMeansTrueIff(cfg: SealConfig, b: Value, v: VerifyConfig, lib: Library)
    requires Sealed(cfg, lib) == Ok(b) && cfg.boundary.Some? && v.context.Some?
    requires v.publicKey.Some? ==> KeyPair(lib, cfg.sigAlg, cfg.privateKey, v.publicKey.value)
    requires OtherwiseAcceptable(cfg, b, v, lib)
    ensures VerifiedMeansTrue(cfg, b, v, lib) <==> lib.evaluate(v.context.value, cfg.boundary.value) != Some(false)
  {
    BoundaryVerdict(cfg, b, v, lib);
    var truth := lib.evaluate(v.context.value, cfg.boundary.value);
    OnlyFalseMisleads(ExitCode(b, v, lib), truth);
  }

  lemma OnlyFalseMisleads(code: int, truth: Option<bool>)
    requires code == if truth.Some? then VERIFIED else POLICY_DENIED
    ensures (code == VERIFIED ==> truth == Some(true)) <==> truth != Some(false)
  {
    match truth {
      case None =>
      case Some(t) => assert t == true || t == false;
    }
  }

  lemma VerdictFromParts(cfg: SealConfig, b: Value, parts: SealedParts, v: VerifyConfig, lib: Library)
    requires SealedFrom(cfg, b, parts, lib) && OtherwiseAcceptable(cfg, b, v, lib)
    requires v.publicKey.Some? ==> KeyPair(lib, cfg.sigAlg, cfg.privateKey, v.publicKey.value)
    ensures ExitCode(b, v, lib) == if BoundaryEvaluates(cfg, v, lib) then VERIFIED else POLICY_DENIED
  {
    SealedChecks(cfg, b, parts, v, lib);
    VerifiedIffAllPass(b, v, lib);
    if !BoundaryEvaluates(cfg, v, lib) {
      BoundaryCheckExact(cfg, b, v, lib);
      DeniedAtBoundary(b, v, lib);
    }
  }

  lemma DeniedAtBoundary(b: Value, v: VerifyConfig, lib: Library)
    requires ShapePasses(b, v, lib) && CheckSignature(b, v, lib) == None && CheckPayload(b, lib) == None
    requires CheckBoundary(b, v, lib) == Some(POLICY_DENIED)
    ensures ExitCode(b, v, lib) == POLICY_DENIED
  {
  }

  // ---------------------------------------------------------------- a false boundary that is accepted

  /** `evaluate` on atoms of type "equals"; anything else is an error here. */
  function EvaluateEquals(context: Value, atom: Value): Option<bool> {
    if AsStr(Get(atom, "type")) != Some("equals") then None else
    match Get(atom, "value")
    case None => None
    case Some(expected) =>
      var value := match AsStr(Get(atom, "field"))
        case None => Null
        case Some(field) => (match Get(context, field) case None => Null case Some(x) => x);
      Some(value == expected)
  }

  /** A library that parses JSON by RFC 8259, evaluates "equals", and knows one digest and one signature algorithm. */
  function ExampleLibrary(): Library {
    Library((b: Bytes) => Parse(b),
            (alg: string, b: Bytes) => if alg == "sha256" then Some(seq(32, _ => 0)) else None,
            (alg: string, key: string, b: Bytes) => if alg == "ed25519" then Some(seq(64, _ => 0)) else None,
            (alg: string, key: string, b: Bytes, sig: Bytes) => alg == "ed25519",
            EvaluateEquals, (text: string) => None, (b: Value) => 0)
  }

  ghost predicate VerifiesThoughFalse(cfg: SealConfig, v: VerifyConfig, lib: Library) {
    && Sealed(cfg, lib).Ok? && cfg.boundary.Some? && v.publicKey.Some? && v.context.Some?
    && KeyPair(lib, cfg.sigAlg, cfg.privateKey, v.publicKey.value)
    && lib.evaluate(v.context.value, cfg.boundary.value) == Some(false)
    && ExitCode(Sealed(cfg, lib).value, v, lib) == VERIFIED
  }

  /** The payload null under the boundary that "x" is true. */
  ghost predicate ExampleSeal(cfg: SealConfig) {
    && cfg.payload == [0x6E, 0x75, 0x6C, 0x6C]
    && cfg.boundary == Some(Obj(map["type" := Str("equals"), "field" := Str("x"), "value" := Bool(true)]))
    && cfg.digestAlg == "sha256" && cfg.sigAlg == "ed25519" && cfg.profile == "sealed"
    && cfg.contextCommit.None? && cfg.parents == [] && cfg.sideAttestations == [] && cfg.expiration.None?
  }

  /** A context in which "x" is false. */
  ghost predicate ExampleCheck(v: VerifyConfig) {
    && v.publicKey.Some? && v.context == Some(Obj(map["x" := Bool(false)]))
    && v.profile.None? && v.maxBytes.None? && v.maxDepth.None?
  }

  lemma ExampleOptions() returns (cfg: SealConfig, v: VerifyConfig)
    ensures ExampleSeal(cfg) && ExampleCheck(v)
  {
    var boundary := Obj(map["type" := Str("equals"), "field" := Str("x"), "value" := Bool(true)]);
    cfg := SealConfig([0x6E, 0x75, 0x6C, 0x6C], Some(boundary), "key", "sha256", "ed25519", "sealed", None, [], [],
                      None);
    v := VerifyConfig(Some("key"), Some(Obj(map["x" := Bool(false)])), None, None, None, 0);
  }

  lemma ExampleIsFalse(cfg: SealConfig, v: VerifyConfig)
    requires ExampleSeal(cfg) && ExampleCheck(v)
    ensures ExampleLibrary().evaluate(v.context.value, cfg.boundary.value) == Some(false)
  {
    var atom := cfg.boundary.value;
    assert "type" != "value" && "field" != "value" && "type" != "field";
    assert Get(atom, "type") == Some(Str("equals")) && Get(atom, "field") == Some(Str("x"))
           && Get(atom, "value") == Some(Bool(true));
    assert Get(v.context.value, "x") == Some(Bool(false));
  }

  lemma ExampleIsSealed(cfg: SealConfig)
    requires ExampleSeal(cfg)
    ensures Sealed(cfg, ExampleLibrary()).Ok?
  {
    RoundTrip(Null);
    var fields := cfg.boundary.value.fields;
    forall k | k in fields ensures SafeNumbers(fields[k]) {
      assert fields[k].Str? || fields[k].Bool?;
    }
    SealsIffSafe(cfg, ExampleLibrary());
  }

  lemma ExampleIsAcceptable(cfg: SealConfig, v: VerifyConfig, lib: Library, b: Value)
    requires ExampleSeal(cfg) && ExampleCheck(v)
    ensures OtherwiseAcceptable(cfg, b, v, lib)
  {
    assert "sealed" != "core";
  }

  /** A bundle sealed under a boundary verifies in a context where that boundary evaluates to false. */
  lemma FalseBoundaryIsAccepted()
    ensures exists cfg, v :: ExampleSeal(cfg) && ExampleCheck(v) && VerifiesThoughFalse(cfg, v, ExampleLibrary())
  {
    var lib := ExampleLibrary();
    var cfg, v := ExampleOptions();
    ExampleIsSealed(cfg);
    ExampleIsFalse(cfg, v);
    ExampleIsAcceptable(cfg, v, lib, Sealed(cfg, lib).value);
    BoundaryVerdict(cfg, Sealed(cfg, lib).value, v, lib);
    assert VerifiesThoughFalse(cfg, v, lib);
  }

  // ---------------------------------------------------------------- approval under the full profile

  /** No attestation of the list is an approval. */
  predicate NoApproval(side: seq<Value>) {
    forall i :: 0 <= i < |side| ==> AsStr(Get(side[i], "type")) != Some("hitl_approval")
  }

  /**
    Approval is missed exactly under the full profile, when the attestations are an object with an array
    in it that holds none although the object requires one.
   */
  lemma ApprovalMissedIff(b: Value)
    ensures CheckNesting(b) == Some(MISSING_SIDE_INFO) <==>
              && AsStr(Get(b, "profile")) == Some("full")
              && exists atts, side ::
                   && Get(b, "side_attestations") == Some(Obj(atts))
                      && Get(Obj(atts), "attestations") == Some(Arr(side))
                   && Get(Obj(atts), "require_hitl") == Some(Bool(true)) && NoApproval(side)
  {
    assert "full" != "core" && "full" != "sealed" && "full" != "chained";
  }

  /** Sealing writes an array of attestations, so on what it seals approval is never missed. */
  lemma SealedNeverMissesApproval(cfg: SealConfig, lib: Library)
    requires Sealed(cfg, lib).Ok?
    ensures CheckNesting(Sealed(cfg, lib).value) != Some(MISSING_SIDE_INFO)
  {
    var parts := PartsOf(cfg, lib);
    ApprovalMissedIff(Sealed(cfg, lib).value);
  }

  /** One requirement, missed as an object and passed over as an array. */
  lemma ApprovalLooksForAnObject()
    ensures var requirement :=
            Obj(map["type" := Str("policy"), "require_hitl" := Bool(true), "attestations" := Arr([])]);
            && CheckNesting(Obj(map["profile" := Str("full"), "side_attestations" := requirement]))
               == Some(MISSING_SIDE_INFO)
            && CheckNesting(Obj(map["profile" := Str("full"), "side_attestations" := Arr([requirement])])) == None
  {
    assert "full" != "core" && "full" != "sealed" && "full" != "chained";
    assert "profile" != "side_attestations" && "type" != "require_hitl" && "attestations" != "require_hitl"
           && "type" != "attestations";
  }
}
