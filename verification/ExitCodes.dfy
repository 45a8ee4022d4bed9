/**
  What the exit codes of the command-line verifier mean for the bundle's own fields.

  `Fault` is a table: the thirteen ways in which a bundle can be at fault, in the order in which they
  count, each with its exit code. `Accepted` is what remains when there is none. Neither mentions the
  checks of the verifier.
 */
module ExitCodes {
  import opened Utf8
  import opened Canonical
  import opened Seal
  import opened Verify

  // ---------------------------------------------------------------- fields

  predicate Present(v: Value, k: string) {
    v.Obj? && k in v.fields
  }

  predicate HasText(v: Value, k: string) {
    v.Obj? && k in v.fields && v.fields[k].Str?
  }

  /** The text of a field, or nothing when it holds none. */
  function Text(v: Value, k: string): string {
    if v.Obj? && k in v.fields && v.fields[k].Str? then v.fields[k].s else ""
  }

  /** The digest algorithm of the bundle; SHA-256 when it names none. */
  function Algorithm(b: Value): string {
    if HasText(b, "digest_algorithm") then Text(b, "digest_algorithm") else "sha256"
  }

  // ---------------------------------------------------------------- depth

  /** Each value of the chain is an element or a member of the one before. */
  ghost predicate Chain(vs: seq<Value>, v: Value) {
    && vs != [] && vs[0] == v
    && forall i :: 0 < i < |vs| ==> Inside(vs[i], vs[i - 1])
  }

  ghost predicate Inside(x: Value, v: Value) {
    (v.Arr? && x in v.items) || (v.Obj? && exists k :: k in v.fields && v.fields[k] == x)
  }

  /** The depth is the length of the longest chain of values, each inside the one before. */
  lemma {:induction false} DepthIsLongestChain(v: Value, n: int)
    ensures DepthWithin(v, n) <==> forall vs :: Chain(vs, v) ==> |vs| <= n
    decreases v
  {
    if DepthWithin(v, n) {
      forall vs | Chain(vs, v) ensures |vs| <= n {
        ChainsAreShort(v, n, vs);
      }
    } else {
      var vs := LongChain(v, n);
      assert Chain(vs, v);
    }
  }

  lemma {:induction false} ChainsAreShort(v: Value, n: int, vs: seq<Value>)
    requires DepthWithin(v, n) && Chain(vs, v)
    ensures |vs| <= n
    decreases |vs|
  {
    if |vs| > 1 {
      var tail := vs[1..];
      assert Inside(vs[1], vs[0]);
      forall i | 0 < i < |tail| ensures Inside(tail[i], tail[i - 1]) {
        assert Inside(vs[i + 1], vs[i]);
      }
      ChainsAreShort(vs[1], n - 1, tail);
    }
  }

  lemma {:induction false} LongChain(v: Value, n: int) returns (vs: seq<Value>)
    requires !DepthWithin(v, n)
    ensures Chain(vs, v) && |vs| > n
    decreases v
  {
    if n < 1 {
      return [v];
    }
    var x: Value;
    match v {
      case Arr(items) =>
        var i :| 0 <= i < |items| && !DepthWithin(items[i], n - 1);
        x := items[i];
      case Obj(fields) =>
        var k :| k in fields && !DepthWithin(fields[k], n - 1);
        x := fields[k];
      case _ =>
    }
    var tail := LongChain(x, n - 1);
    vs := [v] + tail;
    forall i | 0 < i < |vs| ensures Inside(vs[i], vs[i - 1]) {
      if i == 1 {
        assert vs[1] == x && Inside(x, v);
      } else {
        assert Inside(tail[i - 1], tail[i - 2]);
      }
    }
  }

  // ---------------------------------------------------------------- the table of faults

  /** An approval is required, and an attestation list holds none. */
  ghost predicate ApprovalMissing(b: Value) {
    exists atts, side ::
      && Present(b, "side_attestations") && b.fields["side_attestations"] == Obj(atts)
      && "attestations" in atts && atts["attestations"] == Arr(side)
      && "require_hitl" in atts && atts["require_hitl"] == Bool(true)
      && forall a :: a in side ==> Text(a, "type") != "hitl_approval"
  }

  ghost predicate ProfileFault(b: Value, p: string, code: int) {
    || (p == "core" && code == 17 &&
        (Present(b, "boundary") || Present(b, "parents") || Present(b, "side_attestations")))
    || (p == "sealed" && code == 17 && (!Present(b, "boundary") || Present(b, "parents")))
    || (p == "chained" && code == 17 && !Present(b, "parents"))
    || (p == "full" && code == 14 && ApprovalMissing(b))
    || (p != "core" && p != "sealed" && p != "chained" && p != "full" && code == 13)
  }

  /** The bytes that were signed: the canonical text of the bundle without its signature. */
  ghost function Signed(b: Value): Result<Bytes, CanonicalError> {
    EncodeCanonical(if b.Obj? then Obj(map k | k in b.fields && k != "signature" :: b.fields[k]) else b)
  }

  ghost predicate SignatureFault(b: Value, key: string, lib: Library, code: int) {
    match (Signed(b), Unhex(Text(b, "signature")))
    case (Ok(m), Some(sig)) => !lib.verify(Text(b, "signature_algorithm"), key, m, sig) && code == 11
    case _ => code == 10
  }

  /** The recorded digest of these bytes does not match, or the algorithm is unknown. */
  predicate DigestFault(b: Value, m: Bytes, recorded: string, lib: Library, code: int) {
    match lib.digest(Algorithm(b), m)
    case Some(d) => Hex(d) != recorded && code == 11
    case None => code == 10
  }

  ghost predicate PayloadFault(b: Value, lib: Library, code: int) {
    if Present(b, "payload") && b.fields["payload"].Obj? then
      var p := b.fields["payload"];
      HasText(p, "canonical_json") &&
      DigestFault(b, Utf8.Encode(Text(p, "canonical_json")), Text(p, "digest"), lib, code)
    else code == 10
  }

  /** There is a boundary, and it does not encode, its digest differs, or it fails on the context. */
  ghost predicate BoundaryFault(b: Value, context: Option<Value>, lib: Library, code: int) {
    && Present(b, "boundary") && Present(b.fields["boundary"], "spec")
    && var spec := b.fields["boundary"].fields["spec"];
       match EncodeCanonical(spec)
       case Err(_) => code == 10
       case Ok(m) =>
         || DigestFault(b, m, Text(b.fields["boundary"], "digest"), lib, code)
         || (&& (forall c :: !DigestFault(b, m, Text(b.fields["boundary"], "digest"), lib, c))
             && context.Some? && lib.evaluate(context.value, spec) == None && code == 17)
  }

  ghost predicate CommitmentFault(b: Value, context: Option<Value>, lib: Library, code: int) {
    && HasText(b, "context_commitment")
    && match context
       case None => code == 14
       case Some(x) =>
         match EncodeCanonical(x)
         case Err(_) => code == 10
         case Ok(m) => DigestFault(b, m, Text(b, "context_commitment"), lib, code)
  }

  ghost predicate ExpiryFault(b: Value, now: int, lib: Library, code: int) {
    && HasText(b, "expiration")
    && match lib.parseTime(Text(b, "expiration"))
       case None => code == 10
       case Some(t) => t < now && code == 17
  }

  /** Fault number `i` is there, and its exit code is `code`. */
  ghost predicate Fault(i: nat, b: Value, cfg: VerifyConfig, lib: Library, code: int) {
    match i
    case 0 => cfg.maxBytes.Some? && cfg.maxBytes.value < lib.printedSize(b) && code == 16
    case 1 => if HasText(b, "version") then Text(b, "version") != "1.0.0" && code == 13 else code == 10
    case 2 =>
      && code == 10
      && !(Present(b, "payload") && Present(b, "digest_algorithm") && Present(b, "signature_algorithm")
           && Present(b, "signature"))
    case 3 =>
      cfg.profile.Some? &&
      if HasText(b, "profile") then Text(b, "profile") != cfg.profile.value && code == 17 else code == 10
    case 4 => HasText(b, "profile") && ProfileFault(b, Text(b, "profile"), code)
    case 5 => cfg.maxDepth.Some? && code == 12 && exists vs :: Chain(vs, b) && |vs| > cfg.maxDepth.value
    case 6 => cfg.publicKey.Some? && SignatureFault(b, cfg.publicKey.value, lib, code)
    case 7 => PayloadFault(b, lib, code)
    case 8 => BoundaryFault(b, cfg.context, lib, code)
    case 9 => CommitmentFault(b, cfg.context, lib, code)
    case 10 =>
      && code == 10 && Present(b, "side_attestations") && b.fields["side_attestations"].Arr?
      && exists a :: a in b.fields["side_attestations"].items && Text(a, "type") == ""
    case 11 => ExpiryFault(b, cfg.now, lib, code)
    case 12 =>
      && code == 15 && Text(b, "profile") in {"chained", "full"}
      && Present(b, "parents") && b.fields["parents"] == Arr([])
    case _ => false
  }

  // ---------------------------------------------------------------- each check answers its fault

  /** The checks in the order of the verifier. */
  ghost function CheckAt(i: nat, b: Value, cfg: VerifyConfig, lib: Library): Check {
    match i
    case 0 => CheckSize(b, cfg, lib)
    case 1 => CheckVersion(b)
    case 2 => CheckRequired(b)
    case 3 => CheckExpectedProfile(b, cfg)
    case 4 => CheckNesting(b)
    case 5 => CheckDepth(b, cfg)
    case 6 => CheckSignature(b, cfg, lib)
    case 7 => CheckPayload(b, lib)
    case 8 => CheckBoundary(b, cfg, lib)
    case 9 => CheckCommitment(b, cfg, lib)
    case 10 => CheckAttestations(b)
    case 11 => CheckExpiration(b, cfg, lib)
    case 12 => CheckParents(b)
    case _ => None
  }

  lemma CheckIsFault(i: nat, b: Value, cfg: VerifyConfig, lib: Library, code: int)
    ensures CheckAt(i, b, cfg, lib) == Some(code) <==> Fault(i, b, cfg, lib, code)
  {
    match i {
      case 4 => NestingIsFault(b, code);
      case 5 => if cfg.maxDepth.Some? { DepthIsLongestChain(b, cfg.maxDepth.value); }
      case 6 => SignatureIsFault(b, cfg, lib, code);
      case 7 => PayloadIsFault(b, lib, code);
      case 8 => BoundaryIsFault(b, cfg, lib, code);
      case 9 => CommitmentIsFault(b, cfg, lib, code);
      case 10 => AttestationsIsFault(b, code);
      case _ =>
    }
  }

  lemma NestingIsFault(b: Value, code: int)
    ensures CheckNesting(b) == Some(code) <==> HasText(b, "profile") && ProfileFault(b, Text(b, "profile"), code)
  {
    ApprovalMissedIff(b);
    assert "full" != "core" && "full" != "sealed" && "full" != "chained" && "core" != "sealed"
           && "core" != "chained" && "sealed" != "chained";
    if HasText(b, "profile") && Text(b, "profile") == "full" {
      assert ApprovalMissing(b) <==> CheckNesting(b) == Some(14) by { MissingIsMissed(b); }
    }
  }

  lemma MissingIsMissed(b: Value)
    requires HasText(b, "profile") && Text(b, "profile") == "full"
    ensures ApprovalMissing(b) <==> CheckNesting(b) == Some(14)
  {
    ApprovalMissedIff(b);
    if ApprovalMissing(b) {
      var atts, side :|
        && Present(b, "side_attestations") && b.fields["side_attestations"] == Obj(atts)
        && "attestations" in atts && atts["attestations"] == Arr(side)
        && "require_hitl" in atts && atts["require_hitl"] == Bool(true)
        && forall a :: a in side ==> Text(a, "type") != "hitl_approval";
      forall i | 0 <= i < |side| ensures AsStr(Get(side[i], "type")) != Some("hitl_approval") {
        assert side[i] in side;
      }
    }
    if CheckNesting(b) == Some(14) {
      var atts, side :|
        && Get(b, "side_attestations") == Some(Obj(atts)) && Get(Obj(atts), "attestations") == Some(Arr(side))
        && Get(Obj(atts), "require_hitl") == Some(Bool(true)) && NoApproval(side);
      assert forall a :: a in side ==> Text(a, "type") != "hitl_approval";
    }
  }

  lemma SignatureIsFault(b: Value, cfg: VerifyConfig, lib: Library, code: int)
    ensures CheckSignature(b, cfg, lib) == Some(code)
            <==> cfg.publicKey.Some? && SignatureFault(b, cfg.publicKey.value, lib, code)
  {
    SignedIsStripped(b);
  }

  lemma PayloadIsFault(b: Value, lib: Library, code: int)
    ensures CheckPayload(b, lib) == Some(code) <==> PayloadFault(b, lib, code)
  {
  }

  lemma CommitmentIsFault(b: Value, cfg: VerifyConfig, lib: Library, code: int)
    ensures CheckCommitment(b, cfg, lib) == Some(code) <==> CommitmentFault(b, cfg.context, lib, code)
  {
  }

  lemma SignedIsStripped(b: Value)
    ensures Signed(b) == EncodeCanonical(Strip(b))
  {
    if b.Obj? {
      assert (map k | k in b.fields && k != "signature" :: b.fields[k]) == b.fields - {"signature"};
    }
  }

  lemma BoundaryIsFault(b: Value, cfg: VerifyConfig, lib: Library, code: int)
    ensures CheckBoundary(b, cfg, lib) == Some(code) <==> BoundaryFault(b, cfg.context, lib, code)
  {
    if Present(b, "boundary") && Present(b.fields["boundary"], "spec") {
      var section := b.fields["boundary"];
      var spec := section.fields["spec"];
      if EncodeCanonical(spec).Ok? {
        var m := EncodeCanonical(spec).value;
        assert lib.digest(Algorithm(b), m).None? ==> DigestFault(b, m, Text(section, "digest"), lib, 10);
        assert lib.digest(Algorithm(b), m).Some? && Hex(lib.digest(Algorithm(b), m).value) != Text(section, "digest")
               ==> DigestFault(b, m, Text(section, "digest"), lib, 11);
      }
    }
  }

  lemma AttestationsIsFault(b: Value, code: int)
    ensures CheckAttestations(b) == Some(code) <==>
              && code == 10 && Present(b, "side_attestations") && b.fields["side_attestations"].Arr?
              && exists a :: a in b.fields["side_attestations"].items && Text(a, "type") == ""
  {
    if Present(b, "side_attestations") && b.fields["side_attestations"].Arr? {
      var atts := b.fields["side_attestations"].items;
      if a :| a in atts && Text(a, "type") == "" {
        var i :| 0 <= i < |atts| && atts[i] == a;
        assert !Typed(atts[i]);
      } else {
        forall i | 0 <= i < |atts| ensures Typed(atts[i]) {
          assert atts[i] in atts;
        }
      }
    }
  }

  // ---------------------------------------------------------------- main results

  /** Fault number `i` is there, and none that counts before it. */
  ghost predicate FirstFault(i: nat, b: Value, cfg: VerifyConfig, lib: Library, code: int) {
    Fault(i, b, cfg, lib, code) && forall j: nat, c {:trigger Fault(j, b, cfg, lib, c)} ::
      j < i ==> !Fault(j, b, cfg, lib, c)
  }

  /** A bundle without a fault exits with 0, and any other with the code of its first fault. */
  lemma ExitCodeIsFirstFault(b: Value, cfg: VerifyConfig, lib: Library)
    ensures forall i: nat, code :: FirstFault(i, b, cfg, lib, code) ==> ExitCode(b, cfg, lib) == code
    ensures ExitCode(b, cfg, lib) == 0 <==> forall i: nat, code :: !Fault(i, b, cfg, lib, code)
  {
    forall i: nat, code | FirstFault(i, b, cfg, lib, code) ensures ExitCode(b, cfg, lib) == code {
      FirstFaultDecides(i, b, cfg, lib, code);
    }
    if ExitCode(b, cfg, lib) == 0 {
      VerifiedIffAllPass(b, cfg, lib);
      forall i: nat, code ensures !Fault(i, b, cfg, lib, code) {
        CheckIsFault(i, b, cfg, lib, code);
      }
    } else {
      var i, code := EarliestFault(b, cfg, lib);
      assert Fault(i, b, cfg, lib, code);
    }
  }

  lemma FirstFaultDecides(i: nat, b: Value, cfg: VerifyConfig, lib: Library, code: int)
    requires FirstFault(i, b, cfg, lib, code)
    ensures ExitCode(b, cfg, lib) == code
  {
    CheckIsFault(i, b, cfg, lib, code);
    forall j: nat | j < i ensures CheckAt(j, b, cfg, lib) == None {
      if CheckAt(j, b, cfg, lib).Some? {
        CheckIsFault(j, b, cfg, lib, CheckAt(j, b, cfg, lib).value);
        assert false;
      }
    }
    FirstCheckDecides(i, b, cfg, lib, code);
  }

  lemma FirstCheckDecides(i: nat, b: Value, cfg: VerifyConfig, lib: Library, code: int)
    requires CheckAt(i, b, cfg, lib) == Some(code)
    requires forall j: nat :: j < i ==> CheckAt(j, b, cfg, lib) == None
    ensures ExitCode(b, cfg, lib) == code
  {
    assert i <= 12;
    assert i > 0 ==> CheckAt(0, b, cfg, lib) == None;
    assert i > 1 ==> CheckAt(1, b, cfg, lib) == None;
    assert i > 2 ==> CheckAt(2, b, cfg, lib) == None;
    assert i > 3 ==> CheckAt(3, b, cfg, lib) == None;
    assert i > 4 ==> CheckAt(4, b, cfg, lib) == None;
    assert i > 5 ==> CheckAt(5, b, cfg, lib) == None;
    assert i > 6 ==> CheckAt(6, b, cfg, lib) == None;
    assert i > 7 ==> CheckAt(7, b, cfg, lib) == None;
    assert i > 8 ==> CheckAt(8, b, cfg, lib) == None;
    assert i > 9 ==> CheckAt(9, b, cfg, lib) == None;
    assert i > 10 ==> CheckAt(10, b, cfg, lib) == None;
    assert i > 11 ==> CheckAt(11, b, cfg, lib) == None;
  }

  lemma NoCheckFails(b: Value, cfg: VerifyConfig, lib: Library)
    requires forall j: nat :: j <= 12 ==> CheckAt(j, b, cfg, lib).None?
    ensures ExitCode(b, cfg, lib) == 0
  {
    assert CheckAt(0, b, cfg, lib).None? && CheckAt(1, b, cfg, lib).None? && CheckAt(2, b, cfg, lib).None?;
    assert CheckAt(3, b, cfg, lib).None? && CheckAt(4, b, cfg, lib).None? && CheckAt(5, b, cfg, lib).None?;
    assert CheckAt(6, b, cfg, lib).None? && CheckAt(7, b, cfg, lib).None? && CheckAt(8, b, cfg, lib).None?;
    assert CheckAt(9, b, cfg, lib).None? && CheckAt(10, b, cfg, lib).None? && CheckAt(11, b, cfg, lib).None?;
    assert CheckAt(12, b, cfg, lib).None?;
  }

  /** A bundle that is refused has a first fault. */
  lemma EarliestFault(b: Value, cfg: VerifyConfig, lib: Library) returns (i: nat, code: int)
    requires ExitCode(b, cfg, lib) != 0
    ensures FirstFault(i, b, cfg, lib, code) && code == ExitCode(b, cfg, lib)
  {
    i := 0;
    while CheckAt(i, b, cfg, lib).None?
      invariant i <= 12
      invariant forall j: nat :: j < i ==> CheckAt(j, b, cfg, lib).None?
      decreases 12 - i
    {
      if i == 12 {
        NoCheckFails(b, cfg, lib);
      }
      i := i + 1;
    }
    code := CheckAt(i, b, cfg, lib).value;
    CheckIsFault(i, b, cfg, lib, code);
    forall j: nat, c | j < i ensures !Fault(j, b, cfg, lib, c) {
      CheckIsFault(j, b, cfg, lib, c);
    }
    FirstFaultDecides(i, b, cfg, lib, code);
  }

  /** What the profile of an accepted bundle demands of the bundle. */
  ghost predicate ProfileMet(b: Value, p: string) {
    || (p == "core" && !Present(b, "boundary") && !Present(b, "parents") && !Present(b, "side_attestations"))
    || (p == "sealed" && Present(b, "boundary") && !Present(b, "parents"))
    || (p == "chained" && Present(b, "parents"))
    || (p == "full" && !ApprovalMissing(b))
  }

  /** The recorded hexadecimal text is the digest of these bytes. */
  predicate DigestMatches(b: Value, m: Bytes, recorded: string, lib: Library) {
    lib.digest(Algorithm(b), m).Some? && recorded == Hex(lib.digest(Algorithm(b), m).value)
  }

  /** The recorded signature is one of the signed bytes under this key. */
  ghost predicate SignatureVerifies(b: Value, key: string, lib: Library) {
    exists m, sig ::
      && Signed(b) == Ok(m) && Unhex(Text(b, "signature")) == Some(sig)
      && lib.verify(Text(b, "signature_algorithm"), key, m, sig)
  }

  /** Everything that an accepted bundle satisfies. */
  ghost predicate Accepted(b: Value, cfg: VerifyConfig, lib: Library) {
    && b.Obj? && HasText(b, "version") && Text(b, "version") == "1.0.0"
    && {"payload", "digest_algorithm", "signature_algorithm", "signature"} <= b.fields.Keys
    && (cfg.maxBytes.Some? ==> lib.printedSize(b) <= cfg.maxBytes.value)
    && (cfg.maxDepth.Some? ==> forall vs :: Chain(vs, b) ==> |vs| <= cfg.maxDepth.value)
    && (cfg.profile.Some? ==> HasText(b, "profile") && Text(b, "profile") == cfg.profile.value)
    && (HasText(b, "profile") ==> ProfileMet(b, Text(b, "profile")))
    && (cfg.publicKey.Some? ==> SignatureVerifies(b, cfg.publicKey.value, lib))
    && PayloadMatches(b, lib)
    && (Present(b, "boundary") && Present(b.fields["boundary"], "spec") ==> BoundaryMatches(b, cfg.context, lib))
    && (HasText(b, "context_commitment") ==>
          && cfg.context.Some? && EncodeCanonical(cfg.context.value).Ok?
          && DigestMatches(b, EncodeCanonical(cfg.context.value).value, Text(b, "context_commitment"), lib))
    && (Present(b, "side_attestations") && b.fields["side_attestations"].Arr? ==>
          forall a :: a in b.fields["side_attestations"].items ==> Text(a, "type") != "")
    && (HasText(b, "expiration") ==>
          && lib.parseTime(Text(b, "expiration")).Some?
          && cfg.now <= lib.parseTime(Text(b, "expiration")).value)
    && (Text(b, "profile") in {"chained", "full"} && Present(b, "parents") ==> b.fields["parents"] != Arr([]))
  }

  ghost predicate PayloadMatches(b: Value, lib: Library)
    requires Present(b, "payload")
  {
    var p := b.fields["payload"];
    && p.Obj?
    && (HasText(p, "canonical_json")
        ==> DigestMatches(b, Utf8.Encode(Text(p, "canonical_json")), Text(p, "digest"), lib))
  }

  ghost predicate BoundaryMatches(b: Value, context: Option<Value>, lib: Library)
    requires Present(b, "boundary") && Present(b.fields["boundary"], "spec")
  {
    var spec := b.fields["boundary"].fields["spec"];
    && EncodeCanonical(spec).Ok?
    && DigestMatches(b, EncodeCanonical(spec).value, Text(b.fields["boundary"], "digest"), lib)
    && (context.Some? ==> lib.evaluate(context.value, spec).Some?)
  }

  /** The verifier exits with 0 exactly on the accepted bundles. */
  lemma VerifiedIffAccepted(b: Value, cfg: VerifyConfig, lib: Library)
    ensures ExitCode(b, cfg, lib) == 0 <==> Accepted(b, cfg, lib)
  {
    ExitCodeIsFirstFault(b, cfg, lib);
    if Accepted(b, cfg, lib) {
      forall i: nat, code ensures !Fault(i, b, cfg, lib, code) {
        AcceptedHasNoFault(i, b, cfg, lib, code);
      }
    } else if forall i: nat, code :: !Fault(i, b, cfg, lib, code) {
      FaultlessIsAccepted(b, cfg, lib);
      assert false;
    }
  }

  lemma AcceptedHasNoFault(i: nat, b: Value, cfg: VerifyConfig, lib: Library, code: int)
    requires Accepted(b, cfg, lib)
    ensures !Fault(i, b, cfg, lib, code)
  {
  }

  lemma FaultlessIsAccepted(b: Value, cfg: VerifyConfig, lib: Library)
    requires forall i: nat, code :: !Fault(i, b, cfg, lib, code)
    ensures Accepted(b, cfg, lib)
  {
    assert !Fault(0, b, cfg, lib, 16);
    assert !Fault(1, b, cfg, lib, 10) && !Fault(1, b, cfg, lib, 13);
    assert !Fault(2, b, cfg, lib, 10);
    assert !Fault(3, b, cfg, lib, 10) && !Fault(3, b, cfg, lib, 17);
    assert !Fault(4, b, cfg, lib, 13) && !Fault(4, b, cfg, lib, 14) && !Fault(4, b, cfg, lib, 17);
    assert !Fault(5, b, cfg, lib, 12);
    assert !Fault(6, b, cfg, lib, 10) && !Fault(6, b, cfg, lib, 11);
    assert !Fault(7, b, cfg, lib, 10) && !Fault(7, b, cfg, lib, 11);
    assert !Fault(8, b, cfg, lib, 10) && !Fault(8, b, cfg, lib, 11) && !Fault(8, b, cfg, lib, 17);
    assert !Fault(9, b, cfg, lib, 10) && !Fault(9, b, cfg, lib, 11) && !Fault(9, b, cfg, lib, 14);
    assert !Fault(10, b, cfg, lib, 10);
    assert !Fault(11, b, cfg, lib, 10) && !Fault(11, b, cfg, lib, 17);
    assert !Fault(12, b, cfg, lib, 15);
  }

  /** With nothing wrong before the signature, a signature that does not verify exits with 11. */
  lemma ForgedSignatureExits11(b: Value, cfg: VerifyConfig, lib: Library, m: Bytes, sig: Bytes)
    requires forall i: nat, code :: i < 6 ==> !Fault(i, b, cfg, lib, code)
    requires cfg.publicKey.Some? && Signed(b) == Ok(m) && Unhex(Text(b, "signature")) == Some(sig)
    requires !lib.verify(Text(b, "signature_algorithm"), cfg.publicKey.value, m, sig)
    ensures ExitCode(b, cfg, lib) == 11
  {
    ExitCodeIsFirstFault(b, cfg, lib);
    assert FirstFault(6, b, cfg, lib, 11);
  }

  /** Exit code 11 comes only from the signature or from a digest: of the payload, the boundary or the context. */
  lemma Exit11Iff(b: Value, cfg: VerifyConfig, lib: Library)
    ensures ExitCode(b, cfg, lib) == 11 <==> exists i: nat :: 6 <= i <= 9 && FirstFault(i, b, cfg, lib, 11)
  {
    ExitCodeIsFirstFault(b, cfg, lib);
    if ExitCode(b, cfg, lib) == 11 {
      var i, code := EarliestFault(b, cfg, lib);
      assert 6 <= i <= 9;
    }
  }
}
