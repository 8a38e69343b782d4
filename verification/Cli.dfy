/** The `pq` command: header sources, the seven bundle steps, and the subkey check on top of them. */
module Cli {
  import opened Wrappers
  import opened Encoding
  import opened Core
  import opened Merkle
  import opened Derive
  import opened Oracle
  import Bundle
  import Ots

  // ─── Header sources ────────────────────────────────────────────────────────

  datatype HeaderSource =
    | Map(roots: map<nat, Digest>, times: map<nat, U64>)
    | Esplora(rootAt: nat -> Result<Digest, string>, timeAt: nat -> Result<Option<U64>, string>)
  {
    function MerkleRoot(height: nat): Result<Digest, string>
    {
      match this
      case Map(roots, _) =>
        if height in roots then Ok(roots[height])
        else Err("no block at height " + Decimal(height) + " in header file")
      case Esplora(rootAt, _) => rootAt(height)
    }

    function BlockTime(height: nat): Result<Option<U64>, string>
    {
      match this
      case Map(_, times) => Ok(if height in times then Some(times[height]) else None)
      case Esplora(_, timeAt) => timeAt(height)
    }

    function Roots(): Ots.RootSource
    {
      height => this.MerkleRoot(height)
    }
  }

  /** What no `--headers` and no `--esplora` amounts to. */
  function NoHeaders(): HeaderSource
  {
    Map(map[], map[])
  }

  datatype BlockInfo = BlockInfo(merkleRoot: string, time: Option<U64>)

  /** A header file, in height order. */
  type HeaderFile = seq<(nat, BlockInfo)>

  predicate Ascending(file: HeaderFile)
  {
    forall i, j :: 0 <= i < j < |file| ==> file[i].0 < file[j].0
  }

  predicate GoodRoot(info: BlockInfo)
  {
    HexDecode(info.merkleRoot).Some? && |HexDecode(info.merkleRoot).value| == 32
  }

  datatype HeaderFileError = BadHex(height: nat) | BadLength(height: nat)

  ghost predicate HoldsEntry(roots: map<nat, Digest>, times: map<nat, U64>, height: nat, info: BlockInfo)
  {
    && height in roots && HexDecode(info.merkleRoot) == Some(roots[height])
    && info.time == if height in times then Some(times[height]) else None
  }

  ghost function Heights(file: HeaderFile): set<nat>
  {
    set i | 0 <= i < |file| :: file[i].0
  }

  /** The source answers exactly as the file says, and for no other height. */
  ghost predicate Represents(file: HeaderFile, roots: map<nat, Digest>, times: map<nat, U64>)
  {
    && (forall i :: 0 <= i < |file| ==> HoldsEntry(roots, times, file[i].0, file[i].1))
    && roots.Keys == Heights(file) && times.Keys <= roots.Keys
  }

  /** For the heights in the file the source gives the root and the time written there; at any other
      height it has no block and no time. */
  ghost predicate AnswersFrom(file: HeaderFile, source: HeaderSource)
  {
    && (forall i :: 0 <= i < |file| ==>
          && source.MerkleRoot(file[i].0).Ok?
          && HexDecode(file[i].1.merkleRoot) == Some(source.MerkleRoot(file[i].0).value)
          && source.BlockTime(file[i].0) == Ok(file[i].1.time))
    && (forall height :: height !in Heights(file) ==>
          && source.MerkleRoot(height) == Err("no block at height " + Decimal(height) + " in header file")
          && source.BlockTime(height) == Ok(None))
  }

  /** An explorer is asked for each root and each time, and its answer passed on. */
  lemma ExplorerAnswers(rootAt: nat -> Result<Digest, string>, timeAt: nat -> Result<Option<U64>, string>)
    ensures forall height :: Esplora(rootAt, timeAt).MerkleRoot(height) == rootAt(height)
    ensures forall height :: Esplora(rootAt, timeAt).BlockTime(height) == timeAt(height)
  {
  }

  lemma MapAnswers(file: HeaderFile, roots: map<nat, Digest>, times: map<nat, U64>)
    requires Represents(file, roots, times)
    ensures AnswersFrom(file, Map(roots, times))
  {
    forall i | 0 <= i < |file|
      ensures HoldsEntry(roots, times, file[i].0, file[i].1)
    {
    }
  }

  method LoadHeaderFile(file: HeaderFile) returns (r: Result<HeaderSource, HeaderFileError>)
    requires Ascending(file)
    ensures r.Ok? <==> forall i :: 0 <= i < |file| ==> GoodRoot(file[i].1)
    ensures r.Ok? ==> r.value.Map? && Represents(file, r.value.roots, r.value.times)
    ensures r.Ok? ==> AnswersFrom(file, r.value)
    ensures r.Err? ==> exists i ::
      && 0 <= i < |file| && !GoodRoot(file[i].1)
      && r.error.height == file[i].0 && (r.error.BadHex? <==> HexDecode(file[i].1.merkleRoot).None?)
      && forall j :: 0 <= j < i ==> GoodRoot(file[j].1)
  {
    var roots: map<nat, Digest> := map[];
    var times: map<nat, U64> := map[];
    for i := 0 to |file|
      invariant Represents(file[..i], roots, times)
      invariant forall j :: 0 <= j < i ==> GoodRoot(file[j].1)
    {
      var (height, info) := file[i];
      var bytes := HexDecode(info.merkleRoot);
      if bytes.None? {
        return Err(BadHex(height));
      }
      if |bytes.value| != 32 {
        return Err(BadLength(height));
      }
      RepresentsMore(file, i, roots, times, bytes.value);
      roots := roots[height := bytes.value];
      if info.time.Some? {
        times := times[height := info.time.value];
      }
    }
    assert file[..|file|] == file;
    MapAnswers(file, roots, times);
    return Ok(Map(roots, times));
  }

  lemma HeightsGrow(file: HeaderFile, i: nat)
    requires Ascending(file) && i < |file|
    ensures Heights(file[..i + 1]) == Heights(file[..i]) + {file[i].0} && file[i].0 !in Heights(file[..i])
    ensures file[..i + 1] == file[..i] + [file[i]]
  {
    assert forall k :: 0 <= k < i ==> file[..i][k] == file[k] && file[..i + 1][k] == file[k];
    assert file[..i + 1][i] == file[i];
  }

  lemma RepresentsMore(file: HeaderFile, i: nat, roots: map<nat, Digest>, times: map<nat, U64>, root: Digest)
    requires Ascending(file) && i < |file| && Represents(file[..i], roots, times)
    requires HexDecode(file[i].1.merkleRoot) == Some(root)
    ensures var (height, info) := file[i];
      Represents(file[..i + 1], roots[height := root],
                 if info.time.Some? then times[height := info.time.value] else times)
  {
    var (height, info) := file[i];
    var shorter, longer := file[..i], file[..i + 1];
    HeightsGrow(file, i);
    assert height !in times;
    var roots', times' := roots[height := root], if info.time.Some? then times[height := info.time.value] else times;
    forall k | 0 <= k < |longer|
      ensures HoldsEntry(roots', times', longer[k].0, longer[k].1)
    {
      if k < i {
        assert HoldsEntry(roots, times, shorter[k].0, shorter[k].1) && shorter[k].0 in Heights(shorter);
      }
    }
  }

  // ─── [1] The anchor and the verification instant ───────────────────────────

  const OVERRIDE_TOLERANCE_SECS: nat := 2 * 60 * 60

  datatype StepsError =
    | NeedsHeaderSource
    | TimeLookup(message: string)
    | OverrideDisagrees(height: nat, blockTime: U64, override: U64)
    | NoInstant(height: nat)
    | OtsFailed(otsError: Ots.Error)
    | RootCaMismatch
    | BindingFailed(legacy: bool)
    | BundleFailed(bundleError: Bundle.Error)

  datatype Anchoring = Anchoring(pending: bool, quoteTime: U64, anchorHeight: Option<nat>)

  function AbsDiff(a: nat, b: nat): nat { if a < b then b - a else a - b }

  /** The anchor block's own time when the source knows it; an override only has to agree with it. */
  function ChooseInstant(height: nat, blockTime: Result<Option<U64>, string>, override: Option<U64>)
      : (r: Result<U64, StepsError>)
    ensures r.Ok? && blockTime.Ok? && blockTime.value.Some? ==> r.value == blockTime.value.value
    ensures r.Ok? && blockTime.Ok? && blockTime.value.None? ==> override == Some(r.value)
    ensures r.Err? && r.error.TimeLookup? <==> blockTime.Err?
    ensures blockTime.Err? ==> r == Err(TimeLookup(blockTime.error))
    ensures r == Err(NoInstant(height)) <==> blockTime == Ok(None) && override.None?
    ensures r.Err? && r.error.OverrideDisagrees? <==>
      && blockTime.Ok? && blockTime.value.Some? && override.Some?
      && !(blockTime.value.value - 7200 <= override.value <= blockTime.value.value + 7200)
    ensures r.Err? && r.error.OverrideDisagrees? ==>
      r.error == OverrideDisagrees(height, blockTime.value.value, override.value)
    ensures r.Err? ==> r.error.TimeLookup? || r.error == NoInstant(height) || r.error.OverrideDisagrees?
  {
    if blockTime.Err? then Err(TimeLookup(blockTime.error))
    else
      match (blockTime.value, override)
      case (Some(bt), Some(ov)) =>
        if AbsDiff(bt, ov) > OVERRIDE_TOLERANCE_SECS then Err(OverrideDisagrees(height, bt, ov)) else Ok(bt)
      case (Some(bt), None) => Ok(bt)
      case (None, Some(ov)) => Ok(ov)
      case (None, None) => Err(NoInstant(height))
  }

  /** The lowest height among the anchors. */
  function Earliest(anchors: seq<Ots.Anchor>): (height: nat)
    requires anchors != []
    ensures forall i :: 0 <= i < |anchors| ==> height <= anchors[i].height
    ensures exists i :: 0 <= i < |anchors| && anchors[i].height == height
  {
    if |anchors| == 1 then anchors[0].height
    else
      var later := Earliest(anchors[1..]);
      assert forall i :: 1 <= i < |anchors| ==> anchors[i] == anchors[1..][i - 1];
      if anchors[0].height <= later then anchors[0].height else later
  }

  function AnchorStep(
      outcome: Result<seq<Ots.Anchor>, Ots.Error>, source: HeaderSource, sourceGiven: bool,
      override: Option<U64>, now: U64): Result<Anchoring, StepsError>
    requires outcome.Ok? ==> outcome.value != []
  {
    match outcome
    case Ok(anchors) =>
      if !sourceGiven then Err(NeedsHeaderSource)
      else
        var height := Earliest(anchors);
        var instant := ChooseInstant(height, source.BlockTime(height), override);
        if instant.Err? then Err(instant.error) else Ok(Anchoring(false, instant.value, Some(height)))
    case Err(e) =>
      if e.NotAnchored? then Ok(Anchoring(true, now, None))
      else if e.HeaderSource? && !sourceGiven then Err(NeedsHeaderSource)
      else Err(OtsFailed(e))
  }

  // ─── [2]–[7] Root CA and bundle ────────────────────────────────────────────

  /** Seconds to milliseconds, saturating at 64 bits. */
  function Millis(secs: U64): (ms: U64)
    ensures 1000 * secs < 0x1_0000_0000_0000_0000 ==> ms == 1000 * secs
    ensures 1000 * secs >= 0x1_0000_0000_0000_0000 ==> ms == 0xFFFF_FFFF_FFFF_FFFF
  {
    if secs * 1000 < U64_LIMIT then secs * 1000 else U64_LIMIT - 1
  }

  /** `quoteVerifierAt` pins a root CA and an instant in milliseconds. */
  datatype Env = Env(suite: Suite, codec: Bundle.Codec, quoteVerifierAt: (Bytes, U64) -> Bundle.QuoteVerifier)
  {
    /** The quote verifier at an instant in seconds. */
    function AtUnixSecs(rootDer: Bytes, secs: U64): Bundle.QuoteVerifier
    {
      quoteVerifierAt(rootDer, Millis(secs))
    }

    function Digest(b: Bundle.PqRootBundle): Digest
    {
      suite.sha256(codec.bundleJson(b))
    }
  }

  datatype Steps = Steps(pending: bool, quoteTime: U64, anchorHeight: Option<nat>, report: Bundle.VerifyReport)

  /** Would the commitment match under the older formula, without the count? */
  function LegacyProbe(env: Env, b: Bundle.PqRootBundle, qv: Bundle.QuoteVerifier): bool
  {
    var quoteBytes, claimed := env.codec.base64Decode(b.nsmQuote), Bundle.Claimed(b);
    && quoteBytes.Some? && qv(quoteBytes.value).Ok? && claimed.Some?
    && qv(quoteBytes.value).value.userData ==
       UserData(env.suite.sha256, LegacyPayload(claimed.value.mlPk, claimed.value.slhPk, claimed.value.root))
  }

  function BundleStep(env: Env, b: Bundle.PqRootBundle, rootDer: Bytes, a: Anchoring): Result<Steps, StepsError>
  {
    var qv := env.AtUnixSecs(rootDer, a.quoteTime);
    if HexEncode(env.suite.sha256(rootDer)) != b.awsRootCaSha256 then Err(RootCaMismatch)
    else
      var report := Bundle.Verify(env.suite, env.codec, b, qv, None);
      if report.Ok? then Ok(Steps(a.pending, a.quoteTime, a.anchorHeight, report.value))
      else if report.error.BindingMismatch? then Err(BindingFailed(LegacyProbe(env, b, qv)))
      else Err(BundleFailed(report.error))
  }

  datatype Evidence = Evidence(
    parsed: Option<Ots.Proof>, rootDer: Bytes, source: HeaderSource, sourceGiven: bool, override: Option<U64>, now: U64)

  function VerifyBundleSteps(env: Env, b: Bundle.PqRootBundle, digest: Digest, e: Evidence): Result<Steps, StepsError>
  {
    var outcome := Ots.Outcome(e.parsed, digest, e.source.Roots());
    var anchoring := AnchorStep(outcome, e.source, e.sourceGiven, e.override, e.now);
    if anchoring.Err? then Err(anchoring.error) else BundleStep(env, b, e.rootDer, anchoring.value)
  }

  // ─── What each outcome means ───────────────────────────────────────────────

  /** Every Bitcoin attestation of the proof is confirmed by its block, and `height` is the lowest. */
  ghost predicate AnchoredAt(proof: Ots.Proof, source: HeaderSource, height: nat)
  {
    && (exists route :: Ots.IsAttestation(proof.firstStep, route)
          && Ots.NodeAt(proof.firstStep, route).value.data.height == height)
    && forall route :: Ots.IsAttestation(proof.firstStep, route) ==>
         var node := Ots.NodeAt(proof.firstStep, route).value;
         height <= node.data.height && source.MerkleRoot(node.data.height) == Ok(node.output)
  }

  lemma EarliestIsLowestAttestation(proof: Ots.Proof, digest: Digest, roots: Ots.RootSource)
    requires Ots.Outcome(Some(proof), digest, roots).Ok?
    ensures var step, low := proof.firstStep, Earliest(Ots.Outcome(Some(proof), digest, roots).value);
      && (exists route :: Ots.IsAttestation(step, route) && Ots.NodeAt(step, route).value.data.height == low)
      && forall route :: Ots.IsAttestation(step, route) ==> low <= Ots.NodeAt(step, route).value.data.height
  {
    var step, anchors := proof.firstStep, Ots.Outcome(Some(proof), digest, roots).value;
    var routes, low := Ots.Routes(step, Ots.OfBitcoin), Earliest(anchors);
    var i :| 0 <= i < |anchors| && anchors[i].height == low;
    Ots.ClaimLocated(step, i);
    assert Ots.IsAttestation(step, routes[i]);
    forall route | Ots.IsAttestation(step, route)
      ensures low <= Ots.NodeAt(step, route).value.data.height
    {
      Ots.RoutesComplete(step, route, Ots.OfBitcoin);
      var k :| 0 <= k < |routes| && routes[k] == route;
      Ots.ClaimLocated(step, k);
      assert low <= anchors[k].height;
    }
  }

  lemma AnchoredAtExact(proof: Ots.Proof, digest: Digest, source: HeaderSource, height: nat)
    ensures var outcome := Ots.Outcome(Some(proof), digest, source.Roots());
      outcome.Ok? && Earliest(outcome.value) == height <==>
        proof.startDigest == digest && AnchoredAt(proof, source, height)
  {
    Ots.OutcomeExact(Some(proof), digest, source.Roots());
    if Ots.Outcome(Some(proof), digest, source.Roots()).Ok? {
      EarliestIsLowestAttestation(proof, digest, source.Roots());
    }
  }

  /** Exactly when verification is full: the proof is for this bundle and anchored, the instant is the
      one chosen for the lowest anchor, the root CA is the archived one, and the bundle verifies under
      a quote verifier fixed at that instant. */
  lemma FullVerificationExact(
      env: Env, b: Bundle.PqRootBundle, digest: Digest, e: Evidence, t: U64, height: nat, report: Bundle.VerifyReport)
    ensures VerifyBundleSteps(env, b, digest, e) == Ok(Steps(false, t, Some(height), report)) <==>
      && e.sourceGiven && e.parsed.Some? && e.parsed.value.startDigest == digest
      && AnchoredAt(e.parsed.value, e.source, height)
      && ChooseInstant(height, e.source.BlockTime(height), e.override) == Ok(t)
      && HexEncode(env.suite.sha256(e.rootDer)) == b.awsRootCaSha256
      && Bundle.Verify(env.suite, env.codec, b, env.quoteVerifierAt(e.rootDer, Millis(t)), None) == Ok(report)
  {
    if e.parsed.Some? {
      AnchoredAtExact(e.parsed.value, digest, e.source, height);
    }
  }

  /** Full verification: an operation path of the proof leads from the bundle digest to the root of
      the lowest anchoring block. */
  lemma FullVerificationReachesBlock(
      env: Env, exec: Ots.Execute, b: Bundle.PqRootBundle, digest: Digest, e: Evidence) returns (route: Ots.Route)
    requires var r := VerifyBundleSteps(env, b, digest, e); r.Ok? && !r.value.pending
    requires e.parsed.Some? && Ots.WellFormed(exec, e.parsed.value.firstStep, e.parsed.value.startDigest)
    ensures var r, step := VerifyBundleSteps(env, b, digest, e).value, e.parsed.value.firstStep;
      && r.anchorHeight.Some? && AnchoredAt(e.parsed.value, e.source, r.anchorHeight.value)
      && Ots.IsAttestation(step, route)
      && Ots.NodeAt(step, route).value.data == Ots.Bitcoin(r.anchorHeight.value)
      && e.source.MerkleRoot(r.anchorHeight.value) == Ok(Ots.RunOps(exec, Ots.OpsAlong(step, route), digest))
      && ChooseInstant(r.anchorHeight.value, e.source.BlockTime(r.anchorHeight.value), e.override) == Ok(r.quoteTime)
      && Bundle.Verify(env.suite, env.codec, b, env.quoteVerifierAt(e.rootDer, Millis(r.quoteTime)), None)
         == Ok(r.report)
  {
    var r, step := VerifyBundleSteps(env, b, digest, e).value, e.parsed.value.firstStep;
    FullVerificationExact(env, b, digest, e, r.quoteTime, r.anchorHeight.value, r.report);
    route :| Ots.IsAttestation(step, route) && Ots.NodeAt(step, route).value.data.height == r.anchorHeight.value;
    Ots.OutputIsExecuted(exec, step, digest, route);
  }

  /** Exactly when verification is partial: the proof is for this bundle and holds no Bitcoin
      attestation. The instant is then the current time. */
  lemma PendingExact(
      env: Env, b: Bundle.PqRootBundle, digest: Digest, e: Evidence,
      t: U64, height: Option<nat>, report: Bundle.VerifyReport)
    ensures VerifyBundleSteps(env, b, digest, e) == Ok(Steps(true, t, height, report)) <==>
      && e.parsed.Some? && e.parsed.value.startDigest == digest
      && (forall route :: !Ots.IsAttestation(e.parsed.value.firstStep, route))
      && t == e.now && height == None
      && HexEncode(env.suite.sha256(e.rootDer)) == b.awsRootCaSha256
      && Bundle.Verify(env.suite, env.codec, b, env.quoteVerifierAt(e.rootDer, Millis(t)), None) == Ok(report)
  {
    Ots.OutcomeExact(e.parsed, digest, e.source.Roots());
  }

  /** Which step is to blame: first the timestamp, then the instant, then the root CA, then the bundle. */
  lemma StepsErrorExact(env: Env, b: Bundle.PqRootBundle, digest: Digest, e: Evidence)
    ensures var r := VerifyBundleSteps(env, b, digest, e);
      var outcome := Ots.Outcome(e.parsed, digest, e.source.Roots());
      var anchored := outcome.Ok? && e.sourceGiven;
      var instant :=
        if outcome.Ok? then
          ChooseInstant(Earliest(outcome.value), e.source.BlockTime(Earliest(outcome.value)), e.override)
        else Ok(e.now);
      var passed := if outcome.Ok? then e.sourceGiven && instant.Ok? else outcome.error.NotAnchored?;
      && (r == Err(NeedsHeaderSource) <==> !e.sourceGiven && (outcome.Ok? || outcome.error.HeaderSource?))
      && (outcome.Err? && !outcome.error.NotAnchored? && (outcome.error.HeaderSource? ==> e.sourceGiven) <==>
          r.Err? && r.error.OtsFailed?)
      && (r.Err? && r.error.OtsFailed? ==> outcome == Err(r.error.otsError))
      && (anchored && instant.Err? ==> r == Err(instant.error))
      && (r == Err(RootCaMismatch) <==> passed && HexEncode(env.suite.sha256(e.rootDer)) != b.awsRootCaSha256)
      && (passed && HexEncode(env.suite.sha256(e.rootDer)) == b.awsRootCaSha256 ==>
          var report :=
            Bundle.Verify(env.suite, env.codec, b, env.quoteVerifierAt(e.rootDer, Millis(instant.value)), None);
          && (r.Ok? <==> report.Ok?)
          && (report.Err? && !report.error.BindingMismatch? ==> r == Err(BundleFailed(report.error)))
          && (report == Err(Bundle.BindingMismatch) <==> r.Err? && r.error.BindingFailed?))
  {
  }

  lemma EmptyMapConfirmsNothing(parsed: Option<Ots.Proof>, digest: Digest)
    ensures var outcome := Ots.Outcome(parsed, digest, NoHeaders().Roots());
      && outcome.Err?
      && (outcome.error.HeaderSource? <==>
          parsed.Some? && parsed.value.startDigest == digest && Ots.Bitcoins(parsed.value.firstStep) != [])
  {
    if parsed.Some? {
      var found, roots := Ots.Bitcoins(parsed.value.firstStep), NoHeaders().Roots();
      if found != [] {
        assert !Ots.Matches(found[0], roots);
        var k := Ots.FirstFailure(found, roots);
        assert Ots.FailureOf(found[k], roots).HeaderSource?;
      }
    }
  }

  /** Without a header source nothing is ever fully verified; an anchored proof for this bundle is
      answered by asking for one, and never from the branch that holds verified anchors. */
  lemma NoSourceNeverVerifies(env: Env, b: Bundle.PqRootBundle, digest: Digest, e: Evidence)
    requires e.source == NoHeaders() && !e.sourceGiven
    ensures Ots.Outcome(e.parsed, digest, e.source.Roots()).Err?
    ensures var r := VerifyBundleSteps(env, b, digest, e);
      && (r.Ok? ==> r.value.pending)
      && (r == Err(NeedsHeaderSource) <==>
          && e.parsed.Some? && e.parsed.value.startDigest == digest
          && exists route :: Ots.IsAttestation(e.parsed.value.firstStep, route))
  {
    EmptyMapConfirmsNothing(e.parsed, digest);
    if e.parsed.Some? {
      Ots.AttestedIffRouted(e.parsed.value.firstStep);
    }
  }

  /** Exactly when the version-skew diagnosis is given: the bundle passes every check before the
      binding, fails the current formula, and its quote commits to the older one. */
  lemma LegacyDiagnosisExact(env: Env, b: Bundle.PqRootBundle, rootDer: Bytes, a: Anchoring)
    ensures var qv := env.AtUnixSecs(rootDer, a.quoteTime);
      BundleStep(env, b, rootDer, a) == Err(BindingFailed(true)) <==>
        && HexEncode(env.suite.sha256(rootDer)) == b.awsRootCaSha256
        && Bundle.Attested(env.suite, env.codec, b, qv, None) && Bundle.Claimed(b).Some?
        && var q, f := Bundle.Quote(env.codec, b, qv), Bundle.Claimed(b).value;
        && q.userData != UserData(env.suite.sha256, Payload(f))
        && q.userData == UserData(env.suite.sha256, LegacyPayload(f.mlPk, f.slhPk, f.root))
  {
  }

  /** A commitment that matches the older formula for one bundle and the current formula for anything
      at all is a collision between the two payloads. */
  lemma LegacyNeverCurrent(h: Hash, mlPk: Field, slhPk: Field, root: Field, current: PayloadFields)
    requires current.count < U32_LIMIT
    requires UserData(h, LegacyPayload(mlPk, slhPk, root)) == UserData(h, Payload(current))
    ensures LegacyPayload(mlPk, slhPk, root) != Payload(current)
    ensures h(LegacyPayload(mlPk, slhPk, root)) == h(Payload(current))
  {
    FormulasDisjoint(mlPk, slhPk, mlPk, slhPk, root, current);
    UserDataDeterminesHash(h, LegacyPayload(mlPk, slhPk, root), Payload(current));
  }

  /** A bundle diagnosed as the work of an older ceremony was not attested for any current run either,
      short of a collision between the two payloads. */
  lemma DiagnosedBundleIsNoCurrentRun(
      env: Env, b: Bundle.PqRootBundle, rootDer: Bytes, a: Anchoring, run: PayloadFields)
    requires BundleStep(env, b, rootDer, a) == Err(BindingFailed(true)) && run.count < U32_LIMIT
    ensures var qv := env.AtUnixSecs(rootDer, a.quoteTime);
      && Bundle.Attested(env.suite, env.codec, b, qv, None) && Bundle.Claimed(b).Some?
      && var f := Bundle.Claimed(b).value;
      var legacy := LegacyPayload(f.mlPk, f.slhPk, f.root);
      Bundle.Quote(env.codec, b, qv).userData == UserData(env.suite.sha256, Payload(run)) ==>
        legacy != Payload(run) && env.suite.sha256(legacy) == env.suite.sha256(Payload(run))
  {
    LegacyDiagnosisExact(env, b, rootDer, a);
    var f := Bundle.Claimed(b).value;
    var quote := Bundle.Quote(env.codec, b, env.AtUnixSecs(rootDer, a.quoteTime));
    if quote.userData == UserData(env.suite.sha256, Payload(run)) {
      LegacyNeverCurrent(env.suite.sha256, f.mlPk, f.slhPk, f.root, run);
    }
  }

  // ─── verify and verify-subkey ──────────────────────────────────────────────

  /** The two header-source flags, already loaded. */
  datatype Flags = Flags(headers: Option<HeaderSource>, esplora: Option<HeaderSource>)

  datatype Error =
    | SourcesExclusive
    | RootRequired
    | StepFailed(stepsError: StepsError)
    | BadRoot
    | BadKey
    | BadSibling
    | NotMember
    | BadMessage
    | NoSignatures
    | BadSignatureHex
    | Inauthentic(signatureError: Core.Error)

  function ResolveSource(flags: Flags): Option<(HeaderSource, bool)>
  {
    match (flags.headers, flags.esplora)
    case (Some(_), Some(_)) => None
    case (Some(s), None) => Some((s, true))
    case (None, Some(s)) => Some((s, true))
    case (None, None) => Some((NoHeaders(), false))
  }

  function CmdVerify(
      env: Env, b: Bundle.PqRootBundle, parsed: Option<Ots.Proof>, rootDer: Bytes, flags: Flags,
      override: Option<U64>, now: U64): Result<Steps, Error>
  {
    var source := ResolveSource(flags);
    if source.None? then Err(SourcesExclusive)
    else
      var r := VerifyBundleSteps(env, b, env.Digest(b),
                                 Evidence(parsed, rootDer, source.value.0, source.value.1, override, now));
      if r.Err? then Err(StepFailed(r.error)) else Ok(r.value)
  }

  /** With neither flag the command never reports more than a partial verification; with both it does
      not start. */
  lemma FlagsDecideSource(
      env: Env, b: Bundle.PqRootBundle, parsed: Option<Ots.Proof>, rootDer: Bytes, flags: Flags,
      override: Option<U64>, now: U64)
    ensures var r := CmdVerify(env, b, parsed, rootDer, flags, override, now);
      && (r == Err(SourcesExclusive) <==> flags.headers.Some? && flags.esplora.Some?)
      && (flags == Flags(None, None) ==>
          && (r.Ok? ==> r.value.pending)
          && (r == Err(StepFailed(NeedsHeaderSource)) <==>
              && parsed.Some? && parsed.value.startDigest == env.suite.sha256(env.codec.bundleJson(b))
              && exists route :: Ots.IsAttestation(parsed.value.firstStep, route)))
  {
    NoSourceNeverVerifies(env, b, env.Digest(b), Evidence(parsed, rootDer, NoHeaders(), false, override, now));
  }

  lemma CmdVerifyRuns(
      env: Env, b: Bundle.PqRootBundle, parsed: Option<Ots.Proof>, rootDer: Bytes, flags: Flags,
      override: Option<U64>, now: U64, source: HeaderSource, given: bool, steps: Steps)
    requires ResolveSource(flags) == Some((source, given))
    ensures CmdVerify(env, b, parsed, rootDer, flags, override, now) == Ok(steps) <==>
      VerifyBundleSteps(env, b, env.suite.sha256(env.codec.bundleJson(b)),
                        Evidence(parsed, rootDer, source, given, override, now)) == Ok(steps)
  {
    var r := VerifyBundleSteps(env, b, env.Digest(b), Evidence(parsed, rootDer, source, given, override, now));
    assert CmdVerify(env, b, parsed, rootDer, flags, override, now) ==
      if r.Err? then Err(StepFailed(r.error)) else Ok(r.value);
  }

  lemma OneSourceVerifies(
      env: Env, b: Bundle.PqRootBundle, parsed: Option<Ots.Proof>, rootDer: Bytes, flags: Flags,
      override: Option<U64>, now: U64, source: HeaderSource, t: U64, height: nat, report: Bundle.VerifyReport)
    requires flags == Flags(Some(source), None) || flags == Flags(None, Some(source))
    ensures CmdVerify(env, b, parsed, rootDer, flags, override, now) == Ok(Steps(false, t, Some(height), report)) <==>
      FullyVerifies(env, b, parsed, rootDer, source, override, t, height, report)
  {
    var e := Evidence(parsed, rootDer, source, true, override, now);
    CmdVerifyRuns(env, b, parsed, rootDer, flags, override, now, source, true, Steps(false, t, Some(height), report));
    FullVerificationExact(env, b, env.suite.sha256(env.codec.bundleJson(b)), e, t, height, report);
  }

  /** Exactly when the command reports full verification: one source was given, and with it the proof is
      for the digest of this bundle's JSON, anchored and judged as above. */
  lemma CmdVerifyExact(
      env: Env, b: Bundle.PqRootBundle, parsed: Option<Ots.Proof>, rootDer: Bytes, flags: Flags,
      override: Option<U64>, now: U64, t: U64, height: nat, report: Bundle.VerifyReport)
    ensures CmdVerify(env, b, parsed, rootDer, flags, override, now) == Ok(Steps(false, t, Some(height), report)) <==>
      exists source ::
        && (flags == Flags(Some(source), None) || flags == Flags(None, Some(source)))
        && FullyVerifies(env, b, parsed, rootDer, source, override, t, height, report)
  {
    FlagsDecideSource(env, b, parsed, rootDer, flags, override, now);
    forall source | flags == Flags(Some(source), None) || flags == Flags(None, Some(source))
      ensures CmdVerify(env, b, parsed, rootDer, flags, override, now) == Ok(Steps(false, t, Some(height), report)) <==>
        FullyVerifies(env, b, parsed, rootDer, source, override, t, height, report)
    {
      OneSourceVerifies(env, b, parsed, rootDer, flags, override, now, source, t, height, report);
    }
    assert flags.headers.Some? && flags.esplora.None? ==> flags == Flags(Some(flags.headers.value), None);
    assert flags.headers.None? && flags.esplora.Some? ==> flags == Flags(None, Some(flags.esplora.value));
  }

  /** What full verification with a source rests on. */
  ghost predicate FullyVerifies(
      env: Env, b: Bundle.PqRootBundle, parsed: Option<Ots.Proof>, rootDer: Bytes, source: HeaderSource,
      override: Option<U64>, t: U64, height: nat, report: Bundle.VerifyReport)
  {
    && parsed.Some? && parsed.value.startDigest == env.suite.sha256(env.codec.bundleJson(b))
    && AnchoredAt(parsed.value, source, height)
    && ChooseInstant(height, source.BlockTime(height), override) == Ok(t)
    && HexEncode(env.suite.sha256(rootDer)) == b.awsRootCaSha256
    && Bundle.Verify(env.suite, env.codec, b, env.quoteVerifierAt(rootDer, Millis(t)), None) == Ok(report)
  }

  function DecodeSiblings(texts: seq<string>): (r: Option<seq<Digest>>)
    ensures r.Some? ==> |r.value| == |texts|
  {
    if texts == [] then Some([])
    else
      var first, rest := HexDecode(texts[0]), DecodeSiblings(texts[1..]);
      if first.None? || |first.value| != 32 || rest.None? then None else Some([first.value] + rest.value)
  }

  /** Text by text, in order. */
  lemma {:induction false} DecodeSiblingsExact(texts: seq<string>, digests: seq<Digest>)
    ensures DecodeSiblings(texts) == Some(digests) <==>
      |texts| == |digests| && forall k :: 0 <= k < |texts| ==> HexDecode(texts[k]) == Some(digests[k])
  {
    if texts != [] && digests != [] {
      DecodeSiblingsExact(texts[1..], digests[1..]);
      assert digests == [digests[0]] + digests[1..];
      assert forall k :: 1 <= k < |texts| ==> texts[k] == texts[1..][k - 1];
      assert forall k :: 1 <= k < |digests| ==> digests[k] == digests[1..][k - 1];
    }
  }

  lemma DecodeOfHexAll(digests: seq<Digest>)
    ensures DecodeSiblings(HexAll(digests)) == Some(digests)
  {
    forall k | 0 <= k < |digests|
      ensures HexDecode(HexAll(digests)[k]) == Some(digests[k])
    {
      HexRoundTrip(digests[k]);
    }
    DecodeSiblingsExact(HexAll(digests), digests);
  }

  /** Birth provenance: is the response committed under this root? */
  function CheckMembership(c: Suite, rootHex: string, sk: SubkeyResponse): (r: Result<(), Error>)
    ensures r.Ok? <==>
      && Presented(sk).Some? && HexDecode(rootHex).Some? && |HexDecode(rootHex).value| == 32
      && Member(c.sha256, HexDecode(rootHex).value, sk.index, Presented(sk).value.0, Presented(sk).value.1)
    ensures r == Err(BadRoot) <==> HexDecode(rootHex).None? || |HexDecode(rootHex).value| != 32
    ensures r == Err(BadKey) <==>
      && HexDecode(rootHex).Some? && |HexDecode(rootHex).value| == 32
      && (HexDecode(sk.mlDsaPk).None? || HexDecode(sk.slhDsaPk).None?)
    ensures r == Err(BadSibling) <==>
      && HexDecode(rootHex).Some? && |HexDecode(rootHex).value| == 32
      && HexDecode(sk.mlDsaPk).Some? && HexDecode(sk.slhDsaPk).Some? && Presented(sk).None?
    ensures r.Err? ==> r.error in {BadRoot, BadKey, BadSibling, NotMember}
  {
    var root := HexDecode(rootHex);
    if root.None? || |root.value| != 32 then Err(BadRoot)
    else if HexDecode(sk.mlDsaPk).None? || HexDecode(sk.slhDsaPk).None? then Err(BadKey)
    else if DecodeSiblings(sk.merkleProof).None? then Err(BadSibling)
    else
      var (claim, siblings) := Presented(sk).value;
      if Member(c.sha256, root.value, sk.index, claim, siblings) then Ok(()) else Err(NotMember)
  }

  /** The claim and the path a response presents, when they decode. */
  function Presented(sk: SubkeyResponse): (r: Option<(Commitment, seq<Digest>)>)
    ensures r.Some? <==>
      HexDecode(sk.mlDsaPk).Some? && HexDecode(sk.slhDsaPk).Some? && DecodeSiblings(sk.merkleProof).Some?
    ensures r.Some? ==>
      && r.value.0.tag == sk.purposeTag && HexDecode(sk.mlDsaPk) == Some(r.value.0.mlPk)
      && HexDecode(sk.slhDsaPk) == Some(r.value.0.slhPk) && DecodeSiblings(sk.merkleProof) == Some(r.value.1)
  {
    var ml, slh, siblings := HexDecode(sk.mlDsaPk), HexDecode(sk.slhDsaPk), DecodeSiblings(sk.merkleProof);
    if ml.None? || slh.None? || siblings.None? then None
    else Some((Commitment(sk.purposeTag, ml.value, slh.value), siblings.value))
  }

  /** Authenticity: both signatures over the message, under the response's own keys. */
  function CheckAuthenticity(c: Suite, sk: SubkeyResponse, messageHex: string): (r: Result<(), Error>)
    requires Presented(sk).Some?
    ensures r.Ok? <==>
      && CarriesSignature(sk) && HexDecode(messageHex).Some?
      && VerifyDual(c, Presented(sk).value.0.mlPk, Presented(sk).value.0.slhPk,
                    HexDecode(messageHex).value, SignatureIn(sk)).Ok?
    ensures r == Err(BadMessage) <==> HexDecode(messageHex).None?
    ensures r == Err(NoSignatures) <==> HexDecode(messageHex).Some? && (sk.mlDsaSig.None? || sk.slhDsaSig.None?)
    ensures r == Err(BadSignatureHex) <==>
      && HexDecode(messageHex).Some? && sk.mlDsaSig.Some? && sk.slhDsaSig.Some?
      && (HexDecode(sk.mlDsaSig.value).None? || HexDecode(sk.slhDsaSig.value).None?)
    ensures r.Err? && r.error !in {BadMessage, NoSignatures, BadSignatureHex} ==>
      && r.error.Inauthentic? && CarriesSignature(sk)
      && VerifyDual(c, Presented(sk).value.0.mlPk, Presented(sk).value.0.slhPk,
                    HexDecode(messageHex).value, SignatureIn(sk)) == Err(r.error.signatureError)
  {
    var message := HexDecode(messageHex);
    if message.None? then Err(BadMessage)
    else if sk.mlDsaSig.None? || sk.slhDsaSig.None? then Err(NoSignatures)
    else if !CarriesSignature(sk) then Err(BadSignatureHex)
    else
      var claim := Presented(sk).value.0;
      var dual := VerifyDual(c, claim.mlPk, claim.slhPk, message.value, SignatureIn(sk));
      if dual.Err? then Err(Inauthentic(dual.error)) else Ok(())
  }

  /** Given with `--ots`. */
  datatype FullInputs = FullInputs(
    parsed: Option<Ots.Proof>, rootDer: Option<Bytes>, flags: Flags, override: Option<U64>, now: U64)

  /** Yields the bundle steps' result, when they were asked for. */
  function VerifySubkey(
      env: Env, b: Bundle.PqRootBundle, sk: SubkeyResponse, messageHex: Option<string>, full: Option<FullInputs>)
      : Result<Option<Steps>, Error>
  {
    var steps :=
      if full.None? then Ok(None)
      else if full.value.rootDer.None? then Err(RootRequired)
      else
        var f := full.value;
        var r := CmdVerify(env, b, f.parsed, f.rootDer.value, f.flags, f.override, f.now);
        if r.Err? then Err(r.error) else Ok(Some(r.value));
    if steps.Err? then steps
    else
      var member := CheckMembership(env.suite, b.subkeyMerkleRoot, sk);
      if member.Err? then Err(member.error)
      else
        var authentic := if messageHex.None? then Ok(()) else CheckAuthenticity(env.suite, sk, messageHex.value);
        if authentic.Err? then Err(authentic.error) else steps
  }

  /** Exactly what the verdict rests on. With `--ots` the bundle steps are part of it; without, only the
      membership check and, if a message is given, its signatures are. */
  lemma VerifySubkeyExact(
      env: Env, b: Bundle.PqRootBundle, sk: SubkeyResponse, messageHex: Option<string>, full: Option<FullInputs>,
      steps: Option<Steps>)
    ensures VerifySubkey(env, b, sk, messageHex, full) == Ok(steps) <==>
      && CheckMembership(env.suite, b.subkeyMerkleRoot, sk).Ok?
      && (messageHex.Some? ==> CheckAuthenticity(env.suite, sk, messageHex.value).Ok?)
      && (full.Some? <==> steps.Some?)
      && (full.Some? ==> BundleStepsPass(env, b, full.value, steps.value))
  {
  }

  /** Which check is to blame: the bundle steps before membership, membership before authenticity. */
  lemma VerifySubkeyErrorExact(
      env: Env, b: Bundle.PqRootBundle, sk: SubkeyResponse, messageHex: Option<string>, full: Option<FullInputs>)
    ensures var r := VerifySubkey(env, b, sk, messageHex, full);
      var member := CheckMembership(env.suite, b.subkeyMerkleRoot, sk);
      var stepsPass := full.Some? ==> exists steps :: BundleStepsPass(env, b, full.value, steps);
      && (r == Err(RootRequired) <==> full.Some? && full.value.rootDer.None?)
      && (r.Err? && (r.error.SourcesExclusive? || r.error.StepFailed?) <==>
          full.Some? && full.value.rootDer.Some? && !stepsPass)
      && (stepsPass && member.Err? ==> r == Err(member.error))
      && (stepsPass && member.Ok? && messageHex.Some? && CheckAuthenticity(env.suite, sk, messageHex.value).Err? ==>
          r == Err(CheckAuthenticity(env.suite, sk, messageHex.value).error))
  {
    if full.Some? && full.value.rootDer.Some? {
      var f := full.value;
      var r := CmdVerify(env, b, f.parsed, f.rootDer.value, f.flags, f.override, f.now);
      if r.Ok? {
        assert BundleStepsPass(env, b, f, r.value);
      }
    }
  }

  predicate BundleStepsPass(env: Env, b: Bundle.PqRootBundle, full: FullInputs, steps: Steps)
  {
    && full.rootDer.Some?
    && CmdVerify(env, b, full.parsed, full.rootDer.value, full.flags, full.override, full.now) == Ok(steps)
  }

  /** Without `--ots` the verdict says nothing about who made the subkey: for every response there is a
      root that passes it, namely what its own path folds to, and that root alone decides. */
  lemma WithoutOtsAnySubkeyPasses(env: Env, b: Bundle.PqRootBundle, sk: SubkeyResponse)
    requires Presented(sk).Some?
    ensures var (claim, siblings) := Presented(sk).value;
      var folded := Fold(env.suite.sha256, SubkeyLeaf(env.suite.sha256, sk.index, claim), sk.index, siblings);
      && VerifySubkey(env, b.(subkeyMerkleRoot := HexEncode(folded)), sk, None, None) == Ok(None)
      && (VerifySubkey(env, b, sk, None, None) == Ok(None) <==> HexDecode(b.subkeyMerkleRoot) == Some(folded))
  {
    var (claim, siblings) := Presented(sk).value;
    HexRoundTrip(Fold(env.suite.sha256, SubkeyLeaf(env.suite.sha256, sk.index, claim), sk.index, siblings));
  }

  /** The shortest such case: an empty path, against a bundle whose root is the response's own leaf. */
  lemma WithoutOtsOwnLeafPasses(env: Env, b: Bundle.PqRootBundle, sk: SubkeyResponse)
    requires Presented(sk).Some? && sk.merkleProof == []
    requires b.subkeyMerkleRoot == HexEncode(SubkeyLeaf(env.suite.sha256, sk.index, Presented(sk).value.0))
    ensures VerifySubkey(env, b, sk, None, None) == Ok(None)
  {
    HexRoundTrip(SubkeyLeaf(env.suite.sha256, sk.index, Presented(sk).value.0));
  }
}
