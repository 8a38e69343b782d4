/** From the enclave to the offline verifier and back: what the command's verdicts say about a run,
    and that honest runs obtain them. */
module EndToEnd {
  import opened Wrappers
  import opened Encoding
  import opened Core
  import opened Merkle
  import opened MerkleSoundness
  import opened Ceremony
  import opened Oracle
  import opened Provenance
  import opened Cli
  import Bundle
  import Ots

  /** The response shows exactly the run's record at its index, with the run's path. */
  ghost predicate IsRecordOf(c: Suite, state: CeremonyState, sk: SubkeyResponse)
  {
    && sk.index < |state.subkeys| == |state.leaves|
    && var rec := state.subkeys[sk.index];
    && sk.purposeTag == rec.purposeTag
    && HexDecode(sk.mlDsaPk) == Some(rec.mlDsaPk) && HexDecode(sk.slhDsaPk) == Some(rec.slhDsaPk)
    && DecodeSiblings(sk.merkleProof) == Some(Path(c.sha256, state.leaves, sk.index))
  }

  /** The quote, judged as of the instant the steps arrived at, commits to the run's payload. */
  ghost predicate AttestsRun(env: Env, b: Bundle.PqRootBundle, rootDer: Bytes, steps: Steps, state: CeremonyState)
    requires state.Valid(env.suite)
  {
    AcceptedForRun(env.suite, env.codec, b, env.AtUnixSecs(rootDer, steps.quoteTime), None, state.RunPayload())
  }

  /** A subkey verified together with its bundle is a record of the attested run, and any message
      checked along with it is signed under that record's keys. */
  function ExtractVerifiedSubkey(
      env: Env, state: CeremonyState, b: Bundle.PqRootBundle, sk: SubkeyResponse, messageHex: Option<string>,
      full: FullInputs): (v: Verdict)
    requires state.Valid(env.suite) && |state.subkeys| > 0
    requires var r := VerifySubkey(env, b, sk, messageHex, Some(full));
      r.Ok? && r.value.Some? && AttestsRun(env, b, full.rootDer.value, r.value.value, state)
    ensures v.Genuine? ==> IsRecordOf(env.suite, state, sk) && Bundle.Claimed(b) == Some(state.RunPayload())
    ensures v.Genuine? && messageHex.Some? ==>
      && CarriesSignature(sk) && HexDecode(messageHex.value).Some?
      && VerifyDual(env.suite, state.subkeys[sk.index].mlDsaPk, state.subkeys[sk.index].slhDsaPk,
                    HexDecode(messageHex.value).value, SignatureIn(sk)).Ok?
    ensures v.Collision? ==>
      && Presented(sk).Some? && Bundle.Claimed(b).Some?
      && var (claim, siblings) := Presented(sk).value;
      Collides(env.suite.sha256, v,
               CheckedMessages(env.suite.sha256, Bundle.Claimed(b).value, sk.index, claim, siblings),
               RunMessages(env.suite, state))
  {
    var steps := VerifySubkey(env, b, sk, messageHex, Some(full)).value.value;
    var (claim, siblings) := Presented(sk).value;
    ExtractProvenance(env.suite, env.codec, state, b, env.AtUnixSecs(full.rootDer.value, steps.quoteTime), None,
                      HexDecode(b.subkeyMerkleRoot).value, sk.index, claim, siblings)
  }

  /** What the oracle answers for a committed subkey, the command accepts against the run's bundle:
      alone, and together with the bundle steps whenever those pass. */
  lemma OracleAnswerVerifies(
      env: Env, state: CeremonyState, i: U32, messageHex: string, reply: Reply, full: FullInputs, steps: Steps)
    requires Honest(env.suite) && state.Valid(env.suite) && i < |state.subkeys| && HexDecode(messageHex).Some?
    requires SignReply(env.suite, state, Some(SignRequest(i, messageHex)), reply)
    ensures reply.Found? && IsRecordOf(env.suite, state, reply.body)
    ensures VerifySubkey(env, state.bundle, reply.body, Some(messageHex), None) == Ok(None)
    ensures BundleStepsPass(env, state.bundle, full, steps) ==>
      VerifySubkey(env, state.bundle, reply.body, Some(messageHex), Some(full)) == Ok(Some(steps))
  {
    var c, rec := env.suite, state.subkeys[i];
    var path := Path(c.sha256, state.leaves, i);
    EndpointsAgree(c, state, i, messageHex, reply);
    HexRoundTrip(rec.mlDsaPk);
    HexRoundTrip(rec.slhDsaPk);
    DecodeOfHexAll(path);
    HonestMember(c.sha256, state.Commits(), i);
    assert state.Commits()[i] == CommitmentOf(rec);
    assert Presented(reply.body) == Some((CommitmentOf(rec), path));
    assert CheckMembership(c, state.bundle.subkeyMerkleRoot, reply.body).Ok?;
    assert CheckAuthenticity(c, reply.body, messageHex).Ok?;
  }

  /** The bundle of a run, stamped, anchored and checked as of the anchor block's own time against the
      root CA baked into the enclave, is fully verified exactly when the enclave was not in debug mode. */
  lemma HonestRunFullyVerified(
      env: Env, nsm: Nsm, rootCaDer: Bytes, state: CeremonyState, proof: Ots.Proof, source: HeaderSource,
      flags: Flags, height: nat, time: U64, now: U64)
    requires Honest(env.suite) && Bundle.Base64RoundTrips(env.codec)
    requires state.Valid(env.suite) && Recorded(env.suite, env.codec, nsm, rootCaDer, state.bundle)
    requires QuotesFaithfully(
      nsm, env.quoteVerifierAt(rootCaDer, Millis(time)),
      Ascii("pq-keyfork-v1:") + env.suite.sha256(Payload(state.RunPayload())))
    requires proof.startDigest == env.suite.sha256(env.codec.bundleJson(state.bundle))
    requires AnchoredAt(proof, source, height)
    requires source.BlockTime(height) == Ok(Some(time))
    requires flags == Flags(Some(source), None) || flags == Flags(None, Some(source))
    ensures var r := CmdVerify(env, state.bundle, Some(proof), rootCaDer, flags, None, now);
      (r.Ok? && !r.value.pending && r.value.quoteTime == time && r.value.anchorHeight == Some(height)) <==>
        !(Bundle.AllZero(nsm.describePcr(0).value) && Bundle.AllZero(nsm.describePcr(1).value)
          && Bundle.AllZero(nsm.describePcr(2).value))
  {
    var b := state.bundle;
    var e := Evidence(Some(proof), rootCaDer, source, true, None, now);
    HonestRunAccepted(env.suite, env.codec, nsm, rootCaDer, state, env.AtUnixSecs(rootCaDer, time));
    var verified := Bundle.Verify(env.suite, env.codec, b, env.AtUnixSecs(rootCaDer, time), None);
    AnchoredAtExact(proof, env.Digest(b), source, height);
    if verified.Ok? {
      FullVerificationExact(env, b, env.Digest(b), e, time, height, verified.value);
    } else {
      var r := VerifyBundleSteps(env, b, env.Digest(b), e);
      if r.Ok? && !r.value.pending && r.value.quoteTime == time && r.value.anchorHeight == Some(height) {
        FullVerificationExact(env, b, env.Digest(b), e, time, height, r.value.report);
        assert false;
      }
    }
  }
}
