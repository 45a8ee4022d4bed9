/**
  What acceptance by the Go verifier means for the bundle, and what each refusal means.

  `Meets` lists the twelve requirements on the fields of the bundle, in the order in which they count;
  it does not mention the stages of the pipeline.
 */
module GoAcceptance {
  import opened Utf8
  import opened GoPipeline
  import Boundary
  import GO = LineageGo

  // ---------------------------------------------------------------- the requirements

  /** All fifteen required fields are there. */
  predicate Complete(b: Bundle) {
    && b.lineage.bundleId.Some? && b.lineage.bundleId.value != ""
    && "" !in {b.specId, b.specVer, b.profile, b.payload, b.producerId, b.createdAt, b.canonicalEncoding,
               b.digestAlg, b.sigAlg, b.proofKind, b.sealDigestAlg, b.sealDigestB64u, b.sealSigAlg,
               b.sealSignatureB64u}
  }

  /** The seal's digest is the digest of the canonical bytes. */
  ghost predicate DigestIsRight(b: Bundle, lib: Library) {
    exists canon, d ::
      && lib.canonical(b) == Some(canon)
      && lib.digest(b.sealDigestAlg, canon) == Some(d) && lib.decode(b.sealDigestB64u) == Some(d)
  }

  /** The seal's signature is one of the canonical bytes, under the given key. */
  ghost predicate SignatureIsRight(b: Bundle, cfg: Config, lib: Library) {
    exists canon, key, sig ::
      && lib.canonical(b) == Some(canon) && cfg.publicKeyB64u != ""
      && lib.importKey(b.sealSigAlg, cfg.publicKeyB64u) == Some(key) && lib.decode(b.sealSignatureB64u) == Some(sig)
      && lib.verify(b.sealSigAlg, key, canon, sig)
  }

  /** There is no boundary, or it evaluates to true. */
  ghost predicate BoundaryIsTrue(b: Bundle, cfg: Config) {
    b.boundary == Absent || (b.boundary.Expr? && Boundary.EvaluateAtom(b.boundary.p, cfg.oracle) == Boundary.Ok(true))
  }

  /** Someone approved, at some time, and the approval has not expired. */
  ghost predicate ApprovalIsValid(h: Hitl, cfg: Config, lib: Library) {
    && h.approverId != "" && h.approvedAt != ""
    && (h.expiry == "" || exists t :: lib.parseTime(h.expiry) == Some(t) && !(t < cfg.referenceTime))
  }

  /** Requirement number `i`. */
  ghost predicate Meets(i: nat, input: Bytes, cfg: Config, lib: Library) {
    lib.parse(input).Some? &&
    var b := lib.parse(input).value;
    match i
    case 0 => true
    case 1 => cfg.maxBundleBytes > 0 ==> |input| <= cfg.maxBundleBytes
    case 2 => Complete(b)
    case 3 => b.specId == "PROOFBUNDLE" && b.specVer == "1.0.0"
    case 4 =>
      && (b.profile == "PB-BOUNDARY-1" || b.profile == "PB-LINEAGE-1" || b.profile == "PB-REGULATED-1")
      && cfg.profile in {"", b.profile}
    case 5 => lib.canonical(b).Some?
    case 6 => DigestIsRight(b, lib)
    case 7 => SignatureIsRight(b, cfg, lib)
    case 8 => BoundaryIsTrue(b, cfg)
    case 9 => b.requiresSide ==> |b.sideAuthorities| > 0 && forall a :: a in b.sideAuthorities ==> a != ""
    case 10 =>
      b.profile == "PB-BOUNDARY-1"
      || GO.Answer(b.lineage, cfg.parents, lib.contentDigest,
                   if cfg.maxLineageDepth > 0 then cfg.maxLineageDepth else 100) == None
    case 11 => b.profile == "PB-REGULATED-1" ==> b.hitl.Some? && ApprovalIsValid(b.hitl.value, cfg, lib)
    case _ => true
  }

  /** The requirements before number `k` are met. */
  ghost predicate MeetsBefore(k: nat, input: Bytes, cfg: Config, lib: Library) {
    forall i: nat :: i < k ==> Meets(i, input, cfg, lib)
  }

  // ---------------------------------------------------------------- the stages check them

  lemma StageChecks(i: nat, input: Bytes, cfg: Config, lib: Library)
    requires i < 12 && MeetsBefore(i, input, cfg, lib)
    ensures Passes(i, input, cfg, lib) <==> Meets(i, input, cfg, lib)
  {
    if lib.parse(input).Some? {
      var b := lib.parse(input).value;
      if i > 4 {
        assert Meets(4, input, cfg, lib);
      }
      if i > 5 {
        assert Meets(5, input, cfg, lib);
      }
      if i == 11 {
        ApprovalChecked(b, cfg, lib);
      }
    }
  }

  lemma ApprovalChecked(b: Bundle, cfg: Config, lib: Library)
    ensures Approved(b, cfg, lib) <==>
              (b.profile == "PB-REGULATED-1" ==> b.hitl.Some? && ApprovalIsValid(b.hitl.value, cfg, lib))
  {
  }

  /** The run ends at the first requirement that is not met. */
  lemma EndsAtFirstUnmet(k: nat, input: Bytes, cfg: Config, lib: Library)
    requires k <= 12 && MeetsBefore(k, input, cfg, lib) && (k < 12 ==> !Meets(k, input, cfg, lib))
    ensures FirstFailure(0, input, cfg, lib) == k
  {
    forall i: nat | i < 12 && i <= k ensures Passes(i, input, cfg, lib) <==> Meets(i, input, cfg, lib) {
      assert MeetsBefore(i, input, cfg, lib);
      StageChecks(i, input, cfg, lib);
    }
  }

  lemma FirstUnmet(input: Bytes, cfg: Config, lib: Library) returns (k: nat)
    ensures k <= 12 && MeetsBefore(k, input, cfg, lib) && (k < 12 ==> !Meets(k, input, cfg, lib))
  {
    k := 0;
    while k < 12 && Meets(k, input, cfg, lib)
      invariant k <= 12 && MeetsBefore(k, input, cfg, lib)
    {
      k := k + 1;
    }
  }

  // ---------------------------------------------------------------- main results

  /** A bundle is verified exactly when it meets all twelve requirements. */
  lemma VerifiedIffMeetsAll(input: Bytes, cfg: Config, lib: Library)
    ensures Run(input, cfg, lib).0 == "verified" <==> MeetsBefore(12, input, cfg, lib)
  {
    var k := FirstUnmet(input, cfg, lib);
    EndsAtFirstUnmet(k, input, cfg, lib);
    OutcomeVerified(k, input, cfg, lib);
  }

  /** The outcome for each requirement that is the first not to be met; a boundary may be false or fail. */
  ghost predicate Refused(k: nat, outcome: string, input: Bytes, cfg: Config, lib: Library) {
    || (k in {0, 2, 5} && outcome == "malformed")
    || (k == 1 && outcome == "resource-exhausted")
    || (k == 3 && outcome == "unknown-version")
    || (k == 4 && outcome == "not-defined-in-this-version")
    || (k in {6, 7} && outcome == "invalid-signature")
    || (k == 8 && outcome == (if BoundaryIsFalse(input, cfg, lib) then "out-of-bounds" else "indeterminate"))
    || (k == 9 && outcome == "missing-side-info")
    || (k == 10 && outcome == "lineage-invalid")
    || (k == 11 && outcome == "policy-denied")
  }

  ghost predicate BoundaryIsFalse(input: Bytes, cfg: Config, lib: Library) {
    && lib.parse(input).Some? && lib.parse(input).value.boundary.Expr?
    && Boundary.EvaluateAtom(lib.parse(input).value.boundary.p, cfg.oracle) == Boundary.Ok(false)
  }

  /** The names in the trace. */
  const NAMES: seq<string> := ["parse", "resource-budget", "schema", "version", "profile", "canonical", "integrity",
                               "signature", "boundary", "side-info", "lineage", "hitl", "complete"]

  /** The first requirement that is not met decides the outcome, and the trace stops there. */
  lemma FirstUnmetDecides(k: nat, input: Bytes, cfg: Config, lib: Library)
    requires k < 12 && MeetsBefore(k, input, cfg, lib) && !Meets(k, input, cfg, lib)
    ensures var (outcome, t) := Run(input, cfg, lib);
            && Refused(k, outcome, input, cfg, lib)
            && |t| == k + 1 && t[k] == TraceStep(NAMES[k], false)
            && forall i :: 0 <= i < k ==> t[i] == TraceStep(NAMES[i], true)
  {
    EndsAtFirstUnmet(k, input, cfg, lib);
    assert STAGES == NAMES[..12];
    if k > 4 {
      assert Meets(4, input, cfg, lib);
    }
  }

  /** A verified bundle leaves one passed step for each requirement, and one that closes the trace. */
  lemma VerifiedTrace(input: Bytes, cfg: Config, lib: Library)
    requires Run(input, cfg, lib).0 == "verified"
    ensures var t := Run(input, cfg, lib).1;
            |t| == 13 && forall i :: 0 <= i < 13 ==> t[i] == TraceStep(NAMES[i], true)
  {
    TraceFollowsStages(input, cfg, lib);
    assert STAGES == NAMES[..12];
  }

  /** In particular a verified bundle has a signature that verifies, and the digest of its canonical bytes. */
  lemma VerifiedIsSigned(input: Bytes, cfg: Config, lib: Library)
    requires Run(input, cfg, lib).0 == "verified"
    ensures lib.parse(input).Some?
    ensures DigestIsRight(lib.parse(input).value, lib) && SignatureIsRight(lib.parse(input).value, cfg, lib)
  {
    VerifiedIffMeetsAll(input, cfg, lib);
    assert Meets(6, input, cfg, lib) && Meets(7, input, cfg, lib);
  }
}
