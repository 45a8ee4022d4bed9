/**
  The staged verifier of the Go implementation: twelve stages, each of which appends one step to
  the caller's trace, and an outcome fixed by the first stage that fails.

  Parsing, canonicalisation, hashing, base64, key import and signature checking are parameters.
 */
module GoPipeline {
  import opened Utf8
  import Boundary
  import LineageGraph
  import GO = LineageGo
  import PY = LineagePython

  /** The raw boundary of a bundle: absent, not a JSON object, or an expression. */
  datatype RawBoundary = Absent | NotAnObject | Expr(p: Boundary.Pred)

  datatype Hitl = Hitl(approverId: string, approvedAt: string, expiry: string)

  /** `lineage` holds the bundle's id, references and the rest of what lineage looks at. */
  datatype Bundle = Bundle(
    specId: string, specVer: string, profile: string, lineage: LineageGraph.Bundle, payload: string, producerId: string,
    createdAt: string, canonicalEncoding: string, digestAlg: string, sigAlg: string, proofKind: string,
    boundary: RawBoundary, requiresSide: bool, sideAuthorities: seq<string>, hitl: Option<Hitl>,
    sealDigestAlg: string, sealDigestB64u: string, sealSigAlg: string, sealSignatureB64u: string)

  datatype Config = Config(
    profile: string, publicKeyB64u: string, parents: seq<LineageGraph.Bundle>, maxBundleBytes: int,
    maxLineageDepth: int, referenceTime: int, oracle: Boundary.Oracle)

  datatype Library = Library(
    parse: Bytes -> Option<Bundle>,
    canonical: Bundle -> Option<Bytes>,
    digest: (string, Bytes) -> Option<Bytes>,
    decode: string -> Option<Bytes>,
    importKey: (string, string) -> Option<string>,
    verify: (string, string, Bytes, Bytes) -> bool,
    parseTime: string -> Option<int>,
    contentDigest: PY.ContentDigest)

  datatype TraceStep = TraceStep(stage: string, passed: bool)

  const STAGES: seq<string> := ["parse", "resource-budget", "schema", "version", "profile", "canonical",
                                "integrity", "signature", "boundary", "side-info", "lineage", "hitl"]

  /** The outcome when the stage at the same position fails, and the one when none does. */
  const OUTCOMES: seq<string> := ["malformed", "resource-exhausted", "malformed", "unknown-version",
                                  "not-defined-in-this-version", "malformed", "invalid-signature", "invalid-signature",
                                  "out-of-bounds", "missing-side-info", "lineage-invalid", "policy-denied", "verified"]

  // ---------------------------------------------------------------- what each stage checks

  predicate WithinBudget(input: Bytes, cfg: Config) {
    cfg.maxBundleBytes <= 0 || |input| <= cfg.maxBundleBytes
  }

  predicate SchemaHolds(b: Bundle) {
    && b.specId != "" && b.specVer != "" && b.profile != "" && LineageGraph.IdOf(b.lineage) != "" && b.payload != ""
    && b.producerId != "" && b.createdAt != "" && b.canonicalEncoding != "" && b.digestAlg != ""
    && b.sigAlg != "" && b.proofKind != "" && b.sealDigestAlg != "" && b.sealDigestB64u != "" && b.sealSigAlg != ""
       && b.sealSignatureB64u != ""
  }

  predicate VersionKnown(b: Bundle) {
    b.specId == "PROOFBUNDLE" && b.specVer == "1.0.0"
  }

  predicate ProfileFits(b: Bundle, cfg: Config) {
    b.profile in {"PB-BOUNDARY-1", "PB-LINEAGE-1", "PB-REGULATED-1"} && (cfg.profile == "" || cfg.profile == b.profile)
  }

  predicate DigestMatches(b: Bundle, canon: Bytes, lib: Library) {
    lib.digest(b.sealDigestAlg, canon).Some? && lib.digest(b.sealDigestAlg, canon) == lib.decode(b.sealDigestB64u)
  }

  predicate SignatureHolds(b: Bundle, canon: Bytes, cfg: Config, lib: Library) {
    && cfg.publicKeyB64u != ""
    && lib.importKey(b.sealSigAlg, cfg.publicKeyB64u).Some? && lib.decode(b.sealSignatureB64u).Some?
    && lib.verify(b.sealSigAlg, lib.importKey(b.sealSigAlg, cfg.publicKeyB64u).value, canon,
                  lib.decode(b.sealSignatureB64u).value)
  }

  /** The boundary's truth value, or `Failed`. */
  function BoundaryResult(b: Bundle, cfg: Config): Boundary.Short {
    if b.profile !in {"PB-BOUNDARY-1", "PB-LINEAGE-1", "PB-REGULATED-1"} then Boundary.Ok(true)
    else match b.boundary
      case Absent => Boundary.Ok(true)
      case NotAnObject => Boundary.Failed
      case Expr(p) => Boundary.EvaluateAtom(p, cfg.oracle)
  }

  predicate SideInfoPresent(b: Bundle) {
    b.requiresSide ==> b.sideAuthorities != [] && "" !in b.sideAuthorities
  }

  function LineageLimit(cfg: Config): int {
    if cfg.maxLineageDepth <= 0 then 100 else cfg.maxLineageDepth
  }

  predicate LineageHolds(b: Bundle, cfg: Config, lib: Library) {
    b.profile in {"PB-LINEAGE-1", "PB-REGULATED-1"} ==>
      GO.Answer(b.lineage, cfg.parents, lib.contentDigest, LineageLimit(cfg)) == None
  }

  predicate Approved(b: Bundle, cfg: Config, lib: Library) {
    b.profile == "PB-REGULATED-1" ==>
      && b.hitl.Some? && b.hitl.value.approverId != "" && b.hitl.value.approvedAt != ""
      && (b.hitl.value.expiry != "" ==>
            lib.parseTime(b.hitl.value.expiry).Some? && cfg.referenceTime <= lib.parseTime(b.hitl.value.expiry).value)
  }

  /** Whether the stage at position `i` passes, once all before it have. */
  predicate Passes(i: nat, input: Bytes, cfg: Config, lib: Library) {
    lib.parse(input).Some? &&
    var b := lib.parse(input).value;
    var canon := lib.canonical(b);
    match i
    case 0 => true
    case 1 => WithinBudget(input, cfg)
    case 2 => SchemaHolds(b)
    case 3 => VersionKnown(b)
    case 4 => ProfileFits(b, cfg)
    case 5 => canon.Some?
    case 6 => canon.Some? && DigestMatches(b, canon.value, lib)
    case 7 => canon.Some? && SignatureHolds(b, canon.value, cfg, lib)
    case 8 => BoundaryResult(b, cfg) == Boundary.Ok(true)
    case 9 => SideInfoPresent(b)
    case 10 => LineageHolds(b, cfg, lib)
    case _ => Approved(b, cfg, lib)
  }

  // ---------------------------------------------------------------- what a run leaves behind

  /** The first stage from `i` on that fails; twelve when none does. */
  function FirstFailure(i: nat, input: Bytes, cfg: Config, lib: Library): (k: nat)
    requires i <= 12
    ensures i <= k <= 12
    ensures forall j :: i <= j < k ==> Passes(j, input, cfg, lib)
    ensures k < 12 ==> !Passes(k, input, cfg, lib)
    decreases 12 - i
  {
    if i < 12 && Passes(i, input, cfg, lib) then FirstFailure(i + 1, input, cfg, lib) else i
  }

  /** The steps of a run whose first failing stage is `k`. */
  function TraceOf(k: nat): (t: seq<TraceStep>)
    requires k <= 12
  {
    Passed(k) + [if k < 12 then TraceStep(STAGES[k], false) else TraceStep("complete", true)]
  }

  function Passed(k: nat): (t: seq<TraceStep>)
    requires k <= 12
    ensures |t| == k && forall i :: 0 <= i < k ==> t[i] == TraceStep(STAGES[i], true)
  {
    seq(k, i requires 0 <= i < k => TraceStep(STAGES[i], true))
  }

  /** The outcome of a run whose first failing stage is `k`; an errored boundary differs from a false one. */
  function OutcomeOf(k: nat, input: Bytes, cfg: Config, lib: Library): string
    requires k <= 12
  {
    if k == 8 && lib.parse(input).Some? then
      if BoundaryResult(lib.parse(input).value, cfg) == Boundary.Failed then "indeterminate" else "out-of-bounds"
    else
      OUTCOMES[k]
  }

  // ---------------------------------------------------------------- the pipeline

  class Trace {
    var steps: seq<TraceStep>

    constructor ()
      ensures steps == []
    {
      steps := [];
    }

    /** A stage reports its verdict. */
    method Report(i: nat, passed: bool)
      requires i < 12
      modifies this
      ensures steps == old(steps) + [TraceStep(STAGES[i], passed)]
    {
      steps := steps + [TraceStep(STAGES[i], passed)];
    }
  }

  method StageSchema(b: Bundle, trace: Trace) returns (ok: bool)
    modifies trace
    ensures ok == SchemaHolds(b)
    ensures trace.steps == old(trace.steps) + [TraceStep("schema", ok)]
  {
    var required := [b.specId, b.specVer, b.profile, LineageGraph.IdOf(b.lineage), b.payload,
                     b.producerId, b.createdAt, b.canonicalEncoding, b.digestAlg, b.sigAlg, b.proofKind,
                     b.sealDigestAlg, b.sealDigestB64u, b.sealSigAlg, b.sealSignatureB64u];
    ok := "" !in required;
    assert ok == (required[0] != "" && required[1] != "" && required[2] != "" && required[3] != "" && required[4] != ""
                  && required[5] != "" && required[6] != "" && required[7] != "" && required[8] != ""
                     && required[9] != ""
                  && required[10] != "" && required[11] != "" && required[12] != "" && required[13] != ""
                     && required[14] != "");
    trace.Report(2, ok);
  }

  method StageIntegrity(b: Bundle, canon: Bytes, lib: Library, trace: Trace) returns (ok: bool)
    modifies trace
    ensures ok == DigestMatches(b, canon, lib)
    ensures trace.steps == old(trace.steps) + [TraceStep("integrity", ok)]
  {
    var digest := lib.digest(b.sealDigestAlg, canon);
    if digest.None? {
      trace.Report(6, false);
      return false;
    }
    var expected := lib.decode(b.sealDigestB64u);
    if expected.None? {
      trace.Report(6, false);
      return false;
    }
    ok := CompareBytes(digest.value, expected.value);
    trace.Report(6, ok);
  }

  /** `constantTimeCompare`: every byte is looked at; `v` gathers the differences. */
  method CompareBytes(a: Bytes, b: Bytes) returns (equal: bool)
    ensures equal <==> a == b
  {
    if |a| != |b| {
      return false;
    }
    var differs := false;
    for i := 0 to |a|
      invariant differs <==> a[..i] != b[..i]
    {
      assert a[..i + 1] == a[..i] + [a[i]] && b[..i + 1] == b[..i] + [b[i]];
      differs := differs || a[i] != b[i];
    }
    assert a[..|a|] == a && b[..|b|] == b;
    return !differs;
  }

  method StageSignature(b: Bundle, cfg: Config, canon: Bytes, lib: Library, trace: Trace) returns (ok: bool)
    modifies trace
    ensures ok == SignatureHolds(b, canon, cfg, lib)
    ensures trace.steps == old(trace.steps) + [TraceStep("signature", ok)]
  {
    if cfg.publicKeyB64u == "" {
      trace.Report(7, false);
      return false;
    }
    var key := lib.importKey(b.sealSigAlg, cfg.publicKeyB64u);
    if key.None? {
      trace.Report(7, false);
      return false;
    }
    var sig := lib.decode(b.sealSignatureB64u);
    if sig.None? {
      trace.Report(7, false);
      return false;
    }
    ok := lib.verify(b.sealSigAlg, key.value, canon, sig.value);
    trace.Report(7, ok);
  }

  method StageBoundary(b: Bundle, cfg: Config, trace: Trace) returns (result: Boundary.Short)
    modifies trace
    ensures result == BoundaryResult(b, cfg)
    ensures trace.steps == old(trace.steps) + [TraceStep("boundary", result == Boundary.Ok(true))]
  {
    if b.profile != "PB-BOUNDARY-1" && b.profile != "PB-LINEAGE-1" && b.profile != "PB-REGULATED-1" {
      trace.Report(8, true);
      return Boundary.Ok(true);
    }
    match b.boundary {
      case Absent => result := Boundary.Ok(true);
      case NotAnObject => result := Boundary.Failed;
      case Expr(p) => result := Boundary.Evaluate(p, cfg.oracle);
    }
    trace.Report(8, result == Boundary.Ok(true));
  }

  method StageSideInfo(b: Bundle, trace: Trace) returns (ok: bool)
    modifies trace
    ensures ok == SideInfoPresent(b)
    ensures trace.steps == old(trace.steps) + [TraceStep("side-info", ok)]
  {
    if !b.requiresSide {
      trace.Report(9, true);
      return true;
    }
    if |b.sideAuthorities| == 0 {
      trace.Report(9, false);
      return false;
    }
    for i := 0 to |b.sideAuthorities|
      invariant "" !in b.sideAuthorities[..i]
      invariant trace.steps == old(trace.steps)
    {
      if b.sideAuthorities[i] == "" {
        trace.Report(9, false);
        return false;
      }
      assert b.sideAuthorities[..i + 1] == b.sideAuthorities[..i] + [b.sideAuthorities[i]];
    }
    assert b.sideAuthorities[..|b.sideAuthorities|] == b.sideAuthorities;
    trace.Report(9, true);
    return true;
  }

  method StageLineage(b: Bundle, cfg: Config, lib: Library, trace: Trace) returns (ok: bool)
    modifies trace
    ensures ok == LineageHolds(b, cfg, lib)
    ensures trace.steps == old(trace.steps) + [TraceStep("lineage", ok)]
  {
    if b.profile != "PB-LINEAGE-1" && b.profile != "PB-REGULATED-1" {
      trace.Report(10, true);
      return true;
    }
    var error := GO.VerifyLineage(b.lineage, cfg.parents, lib.contentDigest, LineageLimit(cfg));
    ok := error.None?;
    trace.Report(10, ok);
  }

  method StageHitl(b: Bundle, cfg: Config, lib: Library, trace: Trace) returns (ok: bool)
    modifies trace
    ensures ok == Approved(b, cfg, lib)
    ensures trace.steps == old(trace.steps) + [TraceStep("hitl", ok)]
  {
    ok := true;
    if b.profile == "PB-REGULATED-1" {
      if b.hitl.None? || b.hitl.value.approverId == "" || b.hitl.value.approvedAt == "" {
        ok := false;
      } else if b.hitl.value.expiry != "" {
        var expiry := lib.parseTime(b.hitl.value.expiry);
        ok := expiry.Some? && !(cfg.referenceTime > expiry.value);
      }
    }
    trace.Report(11, ok);
  }

  /** `VerifyBundle`. */
  method VerifyBundle(input: Bytes, cfg: Config, lib: Library) returns (outcome: string, steps: seq<TraceStep>)
    ensures var k := FirstFailure(0, input, cfg, lib);
            outcome == OutcomeOf(k, input, cfg, lib) && steps == TraceOf(k)
  {
    var trace := new Trace();
    var parsed := lib.parse(input);
    trace.Report(0, parsed.Some?);
    if parsed.None? {
      return "malformed", trace.steps;
    }
    var b := parsed.value;
    var ok: bool := WithinBudget(input, cfg);
    trace.Report(1, ok);
    if !ok {
      FailsAt(1, input, cfg, lib);
      return "resource-exhausted", trace.steps;
    }
    assert trace.steps == Passed(2);
    ok := StageSchema(b, trace);
    if !ok {
      FailsAt(2, input, cfg, lib);
      return "malformed", trace.steps;
    }
    assert trace.steps == Passed(3);
    outcome, steps := FromVersion(input, b, cfg, lib, trace);
  }

  /** The stages from the version on. */
  method FromVersion(input: Bytes, b: Bundle, cfg: Config, lib: Library, trace: Trace)
      returns (outcome: string, steps: seq<TraceStep>)
    requires lib.parse(input) == Some(b)
    requires forall j :: 0 <= j < 3 ==> Passes(j, input, cfg, lib)
    requires trace.steps == Passed(3)
    modifies trace
    ensures var k := FirstFailure(0, input, cfg, lib);
            outcome == OutcomeOf(k, input, cfg, lib) && steps == TraceOf(k)
  {
    var ok: bool := VersionKnown(b);
    trace.Report(3, ok);
    if !ok {
      FailsAt(3, input, cfg, lib);
      return "unknown-version", trace.steps;
    }
    ok := ProfileFits(b, cfg);
    trace.Report(4, ok);
    if !ok {
      FailsAt(4, input, cfg, lib);
      return "not-defined-in-this-version", trace.steps;
    }
    assert trace.steps == Passed(5);
    outcome, steps := FromCanonical(input, b, cfg, lib, trace);
  }

  /** The stages from canonicalisation on. */
  method FromCanonical(input: Bytes, b: Bundle, cfg: Config, lib: Library, trace: Trace)
      returns (outcome: string, steps: seq<TraceStep>)
    requires lib.parse(input) == Some(b)
    requires forall j :: 0 <= j < 5 ==> Passes(j, input, cfg, lib)
    requires trace.steps == Passed(5)
    modifies trace
    ensures var k := FirstFailure(0, input, cfg, lib);
            outcome == OutcomeOf(k, input, cfg, lib) && steps == TraceOf(k)
  {
    var canon := lib.canonical(b);
    trace.Report(5, canon.Some?);
    if canon.None? {
      FailsAt(5, input, cfg, lib);
      return "malformed", trace.steps;
    }
    assert trace.steps == Passed(6);
    var ok := StageIntegrity(b, canon.value, lib, trace);
    if !ok {
      FailsAt(6, input, cfg, lib);
      return "invalid-signature", trace.steps;
    }
    assert trace.steps == Passed(7);
    ok := StageSignature(b, cfg, canon.value, lib, trace);
    if !ok {
      FailsAt(7, input, cfg, lib);
      return "invalid-signature", trace.steps;
    }
    assert trace.steps == Passed(8);
    outcome, steps := FromBoundary(input, b, cfg, lib, trace);
  }

  /** The stages from the boundary on. */
  method FromBoundary(input: Bytes, b: Bundle, cfg: Config, lib: Library, trace: Trace)
      returns (outcome: string, steps: seq<TraceStep>)
    requires lib.parse(input) == Some(b)
    requires forall j :: 0 <= j < 8 ==> Passes(j, input, cfg, lib)
    requires trace.steps == Passed(8)
    modifies trace
    ensures var k := FirstFailure(0, input, cfg, lib);
            outcome == OutcomeOf(k, input, cfg, lib) && steps == TraceOf(k)
  {
    var result := StageBoundary(b, cfg, trace);
    if result == Boundary.Failed {
      FailsAt(8, input, cfg, lib);
      return "indeterminate", trace.steps;
    }
    if result != Boundary.Ok(true) {
      FailsAt(8, input, cfg, lib);
      return "out-of-bounds", trace.steps;
    }
    assert trace.steps == Passed(9);
    outcome, steps := FromSideInfo(input, b, cfg, lib, trace);
  }

  /** The stages from the side information on. */
  method FromSideInfo(input: Bytes, b: Bundle, cfg: Config, lib: Library, trace: Trace)
      returns (outcome: string, steps: seq<TraceStep>)
    requires lib.parse(input) == Some(b)
    requires forall j :: 0 <= j < 9 ==> Passes(j, input, cfg, lib)
    requires trace.steps == Passed(9)
    modifies trace
    ensures var k := FirstFailure(0, input, cfg, lib);
            outcome == OutcomeOf(k, input, cfg, lib) && steps == TraceOf(k)
  {
    var ok := StageSideInfo(b, trace);
    if !ok {
      FailsAt(9, input, cfg, lib);
      return "missing-side-info", trace.steps;
    }
    assert trace.steps == Passed(10);
    ok := StageLineage(b, cfg, lib, trace);
    if !ok {
      FailsAt(10, input, cfg, lib);
      return "lineage-invalid", trace.steps;
    }
    assert trace.steps == Passed(11);
    ok := StageHitl(b, cfg, lib, trace);
    if !ok {
      FailsAt(11, input, cfg, lib);
      return "policy-denied", trace.steps;
    }
    assert trace.steps == Passed(12);
    trace.steps := trace.steps + [TraceStep("complete", true)];
    return "verified", trace.steps;
  }

  lemma FailsAt(k: nat, input: Bytes, cfg: Config, lib: Library)
    requires k < 12 && !Passes(k, input, cfg, lib)
    requires forall j :: 0 <= j < k ==> Passes(j, input, cfg, lib)
    ensures FirstFailure(0, input, cfg, lib) == k
  {
  }

  // ---------------------------------------------------------------- main results

  /** The trace and the outcome of a run. */
  function Run(input: Bytes, cfg: Config, lib: Library): (string, seq<TraceStep>) {
    var k := FirstFailure(0, input, cfg, lib);
    (OutcomeOf(k, input, cfg, lib), TraceOf(k))
  }

  /**
    Every trace follows the fixed stage order, each step passed except possibly the last; the run is
    verified exactly when all twelve stages passed, and then "complete" closes the trace.
   */
  lemma TraceFollowsStages(input: Bytes, cfg: Config, lib: Library)
    ensures var (outcome, t) := Run(input, cfg, lib);
            && 1 <= |t| <= 13
            && (forall i :: 0 <= i < |t| && i < 12 ==> t[i].stage == STAGES[i])
            && (forall i :: 0 <= i < |t| - 1 ==> t[i].passed)
            && (t[|t| - 1].passed <==> |t| == 13)
            && (|t| == 13 <==> outcome == "verified")
            && (outcome == "verified" ==> t[12].stage == "complete")
            && (outcome == "verified" <==> forall i :: 0 <= i < 12 ==> Passes(i, input, cfg, lib))
  {
    var k := FirstFailure(0, input, cfg, lib);
    TraceShape(k);
    OutcomeVerified(k, input, cfg, lib);
  }

  lemma TraceShape(k: nat)
    requires k <= 12
    ensures var t := TraceOf(k);
            && |t| == k + 1
            && (forall i :: 0 <= i < |t| && i < 12 ==> t[i].stage == STAGES[i])
            && (forall i :: 0 <= i < |t| - 1 ==> t[i].passed)
            && (t[k].passed <==> k == 12) && (k == 12 ==> t[12].stage == "complete")
  {
  }

  lemma OutcomeVerified(k: nat, input: Bytes, cfg: Config, lib: Library)
    requires k <= 12
    ensures OutcomeOf(k, input, cfg, lib) == "verified" <==> k == 12
  {
    assert "verified" != "malformed" && "verified" != "invalid-signature" && "verified" != "policy-denied";
  }

  /** The documented outcome for the stage at which a run ends; only the boundary stage has two. */
  function OutcomeAt(stage: string, boundary: Boundary.Short): string {
    if stage in {"parse", "schema", "canonical"} then "malformed"
    else if stage == "resource-budget" then "resource-exhausted"
    else if stage == "version" then "unknown-version"
    else if stage == "profile" then "not-defined-in-this-version"
    else if stage in {"integrity", "signature"} then "invalid-signature"
    else if stage == "boundary" then if boundary == Boundary.Failed then "indeterminate" else "out-of-bounds"
    else if stage == "side-info" then "missing-side-info"
    else if stage == "lineage" then "lineage-invalid"
    else if stage == "hitl" then "policy-denied"
    else "verified"
  }

  /** The outcome of every run is read off the last step of its trace and, for the boundary stage, the evaluation. */
  lemma OutcomeIsReadOff(input: Bytes, cfg: Config, lib: Library, result: Boundary.Short)
    requires lib.parse(input).Some? ==> result == BoundaryResult(lib.parse(input).value, cfg)
    ensures var (outcome, t) := Run(input, cfg, lib);
            outcome == OutcomeAt(t[|t| - 1].stage, result)
  {
    var k := FirstFailure(0, input, cfg, lib);
    OutcomeAtStage(k, result);
  }

  lemma OutcomeAtStage(k: nat, result: Boundary.Short)
    requires k <= 12
    ensures OutcomeAt(TraceOf(k)[k].stage, result)
            == if k == 8 then if result == Boundary.Failed then "indeterminate" else "out-of-bounds" else OUTCOMES[k]
  {
    forall j | 0 <= j < 12 && j != k ensures STAGES[j] != TraceOf(k)[k].stage {
      StageNamesDiffer(if j < k then j else k, if j < k then k else j);
    }
    OutcomeAtName(k, TraceOf(k)[k].stage, result);
  }

  lemma OutcomeAtName(k: nat, stage: string, result: Boundary.Short)
    requires k <= 12 && (k < 12 ==> stage == STAGES[k]) && forall j :: 0 <= j < 12 && j != k ==> stage != STAGES[j]
    ensures OutcomeAt(stage, result)
            == if k == 8 then if result == Boundary.Failed then "indeterminate" else "out-of-bounds" else OUTCOMES[k]
  {
    assert STAGES[0] == "parse" && STAGES[1] == "resource-budget" && STAGES[2] == "schema" && STAGES[3] == "version";
    assert STAGES[4] == "profile" && STAGES[5] == "canonical" && STAGES[6] == "integrity" && STAGES[7] == "signature";
    assert STAGES[8] == "boundary" && STAGES[9] == "side-info" && STAGES[10] == "lineage" && STAGES[11] == "hitl";
  }

  /** No two stages have the same name, and none is called "complete". */
  lemma StageNamesDiffer(i: nat, j: nat)
    requires i < j <= 12
    ensures STAGES[i] != if j < 12 then STAGES[j] else "complete"
  {
    var lengths := [5, 15, 6, 7, 7, 9, 9, 9, 8, 9, 7, 4];
    var thirds := ['r', 's', 'h', 'r', 'o', 'n', 't', 'g', 'u', 'd', 'n', 't'];
    var a, b := STAGES[i], if j < 12 then STAGES[j] else "complete";
    assert |a| == lengths[i] && a[2] == thirds[i];
    assert j < 12 ==> |b| == lengths[j] && b[2] == thirds[j];
    assert j == 12 ==> |b| == 8 && b[2] == 'm';
  }

  /** The last step of a trace tells at which stage the run ended. */
  lemma LastStepTellsTheStage(j: nat, k: nat)
    requires j <= 12 && k <= 12 && TraceOf(j)[j].stage == TraceOf(k)[k].stage
    ensures j == k
  {
    if j < k {
      StageNamesDiffer(j, k);
    } else if k < j {
      StageNamesDiffer(k, j);
    }
  }

  /**
    The last step of the trace determines the outcome of any two runs, of whatever inputs, but for
    the boundary stage, where it takes the result of the evaluation as well.
   */
  lemma LastStepTellsTheOutcome(input: Bytes, cfg: Config, lib: Library, input': Bytes, cfg': Config, lib': Library)
    requires var (t, t') := (Run(input, cfg, lib).1, Run(input', cfg', lib').1);
             t[|t| - 1].stage == t'[|t'| - 1].stage
    requires var t := Run(input, cfg, lib).1;
             t[|t| - 1] == TraceStep("boundary", false) ==>
               BoundaryResult(lib.parse(input).value, cfg) == BoundaryResult(lib'.parse(input').value, cfg')
    ensures Run(input, cfg, lib) == Run(input', cfg', lib')
  {
    LastStepTellsTheStage(FirstFailure(0, input, cfg, lib), FirstFailure(0, input', cfg', lib'));
  }

  // ---------------------------------------------------------------- profiles

  lemma OutcomeNotDefined(k: nat, input: Bytes, cfg: Config, lib: Library)
    requires k <= 12
    ensures OutcomeOf(k, input, cfg, lib) == "not-defined-in-this-version" <==> k == 4
  {
    assert |"not-defined-in-this-version"| == 27;
  }

  /**
    A run ends with "not-defined-in-this-version" exactly when the bundle parses within the budget, holds the
    schema and the version, and its profile is none of three or is not the one asked for.
   */
  lemma NotDefinedIff(input: Bytes, cfg: Config, lib: Library)
    ensures Run(input, cfg, lib).0 == "not-defined-in-this-version" <==>
              && lib.parse(input).Some? && WithinBudget(input, cfg)
              && SchemaHolds(lib.parse(input).value) && VersionKnown(lib.parse(input).value)
              && var profile := lib.parse(input).value.profile;
                 || profile !in {"PB-BOUNDARY-1", "PB-LINEAGE-1", "PB-REGULATED-1"}
                 || (cfg.profile != "" && cfg.profile != profile)
  {
    var k := FirstFailure(0, input, cfg, lib);
    OutcomeNotDefined(k, input, cfg, lib);
    assert (forall j :: 0 <= j < 4 ==> Passes(j, input, cfg, lib)) <==>
           Passes(0, input, cfg, lib) && Passes(1, input, cfg, lib) && Passes(2, input, cfg, lib)
               && Passes(3, input, cfg, lib);
    if (forall j :: 0 <= j < 4 ==> Passes(j, input, cfg, lib)) && !Passes(4, input, cfg, lib) {
      FailsAt(4, input, cfg, lib);
    }
  }

  /** A bundle of the documented profile PB-INTEGRITY-1 is never verified. */
  lemma IntegrityProfileIsNotVerified(input: Bytes, cfg: Config, lib: Library)
    requires lib.parse(input).Some? && lib.parse(input).value.profile == "PB-INTEGRITY-1"
    ensures Run(input, cfg, lib).0 != "verified"
  {
    IntegrityIsNotKnown();
    TraceFollowsStages(input, cfg, lib);
    assert !Passes(4, input, cfg, lib);
  }

  lemma IntegrityIsNotKnown()
    ensures "PB-INTEGRITY-1" !in {"PB-BOUNDARY-1", "PB-LINEAGE-1", "PB-REGULATED-1"}
  {
    assert "PB-INTEGRITY-1"[3] == 'I' && "PB-BOUNDARY-1"[3] == 'B' && "PB-LINEAGE-1"[3] == 'L'
           && "PB-REGULATED-1"[3] == 'R';
  }

  /** A bundle of that profile with nothing missing, and no boundary, references or approval. */
  function IntegrityBundle(): Bundle {
    Bundle("PROOFBUNDLE", "1.0.0", "PB-INTEGRITY-1",
           LineageGraph.Bundle(Some("id"), [], Some("d"), "SHA-256", "SHA-256", "p"), "p",
           "producer", "2026-05-16T00:00:00Z", "PB-CANON-JSON-1", "SHA-256", "Ed25519", "signature",
           Absent, false, [], None, "SHA-256", "d", "Ed25519", "s")
  }

  /** It ends at the profile stage, whatever the algorithms and keys do. */
  lemma IntegrityProfileIsRefused(input: Bytes, cfg: Config, lib: Library)
    requires lib.parse(input) == Some(IntegrityBundle()) && WithinBudget(input, cfg)
    ensures Run(input, cfg, lib).0 == "not-defined-in-this-version"
  {
    IntegrityIsNotKnown();
    NotDefinedIff(input, cfg, lib);
  }

  // ---------------------------------------------------------------- acceptance

  /** What acceptance guarantees about the bundle. */
  lemma AcceptanceGuarantees(input: Bytes, cfg: Config, lib: Library)
    requires Run(input, cfg, lib).0 == "verified"
    ensures lib.parse(input).Some? && lib.canonical(lib.parse(input).value).Some?
    ensures var b := lib.parse(input).value;
            var canon := lib.canonical(b).value;
            && lib.digest(b.sealDigestAlg, canon).Some?
            && lib.digest(b.sealDigestAlg, canon) == lib.decode(b.sealDigestB64u)
            && cfg.publicKeyB64u != ""
            && (exists key, sig ::
                  && lib.importKey(b.sealSigAlg, cfg.publicKeyB64u) == Some(key)
                  && lib.decode(b.sealSignatureB64u) == Some(sig) && lib.verify(b.sealSigAlg, key, canon, sig))
            && (b.requiresSide ==> b.sideAuthorities != [] && forall a :: a in b.sideAuthorities ==> a != "")
            && (b.profile == "PB-REGULATED-1" ==>
                  b.hitl.Some? && b.hitl.value.approverId != "" && b.hitl.value.approvedAt != "")
            && (b.boundary.Absent?
                || (b.boundary.Expr? && Boundary.EvaluateAtom(b.boundary.p, cfg.oracle) == Boundary.Ok(true)))
  {
    TraceFollowsStages(input, cfg, lib);
    assert Passes(4, input, cfg, lib) && Passes(5, input, cfg, lib) && Passes(6, input, cfg, lib)
           && Passes(7, input, cfg, lib);
    assert Passes(8, input, cfg, lib) && Passes(9, input, cfg, lib) && Passes(11, input, cfg, lib);
  }

  lemma AcceptedWithoutError(input: Bytes, cfg: Config, lib: Library)
    requires Run(input, cfg, lib).0 == "verified" && lib.parse(input).Some?
    requires lib.parse(input).value.profile in {"PB-LINEAGE-1", "PB-REGULATED-1"}
    ensures GO.Answer(lib.parse(input).value.lineage, cfg.parents, lib.contentDigest, LineageLimit(cfg)) == None
  {
    TraceFollowsStages(input, cfg, lib);
    assert Passes(10, input, cfg, lib);
  }

  /**
    Under a lineage profile, with comparable parents, an accepted bundle has a tidy lineage within the limit,
    which is valid exactly when the bundle's own id is not among the parent ids.
   */
  lemma AcceptedLineage(input: Bytes, cfg: Config, lib: Library, alg: string)
    requires Run(input, cfg, lib).0 == "verified" && lib.parse(input).Some? && alg != ""
    requires lib.parse(input).value.profile in {"PB-LINEAGE-1", "PB-REGULATED-1"}
    requires PY.Comparable(lib.parse(input).value.lineage, cfg.parents, lib.contentDigest, alg)
    ensures var root, store := lib.parse(input).value.lineage, LineageGraph.IndexById(cfg.parents);
            && LineageGraph.Tidy(root, store)
            && (forall p :: LineageGraph.IsPath(root, store, p) ==> |p| <= LineageLimit(cfg))
            && (LineageGraph.ValidLineage(root, store) <==>
                  LineageGraph.IdOf(root) !in GO.Unfolded(root, cfg.parents, lib.contentDigest, LineageLimit(cfg)))
  {
    AcceptedWithoutError(input, cfg, lib);
    GO.AcceptanceIsSound(lib.parse(input).value.lineage, cfg.parents, lib.contentDigest, alg, LineageLimit(cfg));
  }

  /** If no other supplied bundle claims the bundle's own id, it is valid. */
  lemma AcceptedLineageIsValid(input: Bytes, cfg: Config, lib: Library, alg: string)
    requires Run(input, cfg, lib).0 == "verified" && lib.parse(input).Some? && alg != ""
    requires lib.parse(input).value.profile in {"PB-LINEAGE-1", "PB-REGULATED-1"}
    requires PY.Comparable(lib.parse(input).value.lineage, cfg.parents, lib.contentDigest, alg)
    requires GO.OwnRoot(lib.parse(input).value.lineage, cfg.parents)
    ensures LineageGraph.ValidLineage(lib.parse(input).value.lineage, LineageGraph.IndexById(cfg.parents))
  {
    AcceptedWithoutError(input, cfg, lib);
    GO.AcceptanceIsSound(lib.parse(input).value.lineage, cfg.parents, lib.contentDigest, alg, LineageLimit(cfg));
    GO.OwnRootNotUnfolded(lib.parse(input).value.lineage, cfg.parents, lib.contentDigest, alg, LineageLimit(cfg));
  }

  /** On a boundary without faulty atoms acceptance means that the boundary is true, in every order of evaluation. */
  lemma AcceptedBoundaryIsTrue(input: Bytes, cfg: Config, lib: Library, q: Boundary.Pred)
    requires Run(input, cfg, lib).0 == "verified"
    requires lib.parse(input).Some? && lib.parse(input).value.boundary.Expr?
    requires Boundary.Clean(lib.parse(input).value.boundary.p, cfg.oracle)
             && Boundary.Reorders(lib.parse(input).value.boundary.p, q)
    ensures Boundary.EvaluateAtom(q, cfg.oracle) == Boundary.Ok(true)
  {
    AcceptanceGuarantees(input, cfg, lib);
    Boundary.ShortOnClean(lib.parse(input).value.boundary.p, cfg.oracle);
    Boundary.ReordersKeepsMeaning(lib.parse(input).value.boundary.p, q, cfg.oracle);
    Boundary.ShortOnClean(q, cfg.oracle);
  }
}
