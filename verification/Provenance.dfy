/** The theorem the repository exists for: an accepted subkey is one the attested run created. */
module Provenance {
  import opened Wrappers
  import opened Encoding
  import opened Core
  import opened Merkle
  import opened MerkleSoundness
  import opened Ceremony
  import Bundle

  /** The bundle was accepted under a quote that commits to this run's payload. */
  predicate AcceptedForRun(
      c: Suite, codec: Bundle.Codec, b: Bundle.PqRootBundle, qv: Bundle.QuoteVerifier, ts: Bundle.TimestampCheck,
      run: PayloadFields)
    requires run.count < U32_LIMIT
  {
    && Bundle.Verify(c, codec, b, qv, ts).Ok?
    && Bundle.Quote(codec, b, qv).userData == UserData(c.sha256, Payload(run))
  }

  /** What the two sides hash: the verifier its payload and its membership check, the run its payload
      and its tree. */
  ghost function CheckedMessages(
      h: Hash, f: PayloadFields, index: U32, claim: Commitment, siblings: seq<Digest>): set<Bytes>
    requires f.count < U32_LIMIT
  {
    {Payload(f)} + VerifierMessages(h, index, claim, siblings)
  }

  ghost function RunMessages(c: Suite, state: CeremonyState): set<Bytes>
    requires state.Valid(c)
  {
    {Payload(state.RunPayload())} + BuilderMessages(c.sha256, state.Commits())
  }

  /** An accepted bundle that carries a run's commitment spells out that run's keys, root and count. */
  function ExtractBundle(
      c: Suite, codec: Bundle.Codec, b: Bundle.PqRootBundle, qv: Bundle.QuoteVerifier, ts: Bundle.TimestampCheck,
      run: PayloadFields): (v: Verdict)
    requires run.count < U32_LIMIT && AcceptedForRun(c, codec, b, qv, ts, run)
    ensures v.Genuine? ==> Bundle.Claimed(b) == Some(run)
    ensures v.Collision? ==> Collides(c.sha256, v, {Payload(Bundle.Claimed(b).value)}, {Payload(run)})
  {
    var mine, theirs := Payload(Bundle.Claimed(b).value), Payload(run);
    UserDataDeterminesHash(c.sha256, mine, theirs);
    if mine != theirs then Collision(mine, theirs)
    else
      ParseOfPayload(Bundle.Claimed(b).value);
      ParseOfPayload(run);
      Genuine
  }

  /** For any run with subkeys and any accepted bundle attested for it, an accepted membership claim
      is the run's own record at that index with the run's own path. */
  function ExtractProvenance(
      c: Suite, codec: Bundle.Codec, state: CeremonyState,
      b: Bundle.PqRootBundle, qv: Bundle.QuoteVerifier, ts: Bundle.TimestampCheck,
      root: Digest, index: U32, claim: Commitment, siblings: seq<Digest>): (v: Verdict)
    requires state.Valid(c) && |state.subkeys| > 0
    requires AcceptedForRun(c, codec, b, qv, ts, state.RunPayload())
    requires HexDecode(b.subkeyMerkleRoot) == Some(root) && Member(c.sha256, root, index, claim, siblings)
    ensures v.Genuine? ==>
      && Bundle.Claimed(b) == Some(state.RunPayload())
      && index < |state.subkeys| && claim == CommitmentOf(state.subkeys[index])
      && siblings == Path(c.sha256, state.leaves, index)
    ensures v.Collision? ==>
      Collides(c.sha256, v,
               CheckedMessages(c.sha256, Bundle.Claimed(b).value, index, claim, siblings), RunMessages(c, state))
  {
    var bundle := ExtractBundle(c, codec, b, qv, ts, state.RunPayload());
    if bundle.Collision? then bundle
    else
      assert state.RunPayload().root == Root(c.sha256, state.leaves);
      ExtractMembership(c.sha256, state.Commits(), index, claim, siblings)
  }

  /** Unless the inputs the two sides hash collide, the accepted claims are exactly the run's records. */
  lemma ProvenanceExact(
      c: Suite, codec: Bundle.Codec, state: CeremonyState,
      b: Bundle.PqRootBundle, qv: Bundle.QuoteVerifier, ts: Bundle.TimestampCheck,
      root: Digest, index: U32, claim: Commitment, siblings: seq<Digest>)
    requires state.Valid(c) && |state.subkeys| > 0
    requires AcceptedForRun(c, codec, b, qv, ts, state.RunPayload())
    requires HexDecode(b.subkeyMerkleRoot) == Some(root)
    requires NoCollisionBetween(
      c.sha256, CheckedMessages(c.sha256, Bundle.Claimed(b).value, index, claim, siblings), RunMessages(c, state))
    ensures Member(c.sha256, root, index, claim, siblings) <==>
      && index < |state.subkeys| && claim == CommitmentOf(state.subkeys[index])
      && siblings == Path(c.sha256, state.leaves, index)
  {
    var h := c.sha256;
    assert ExtractBundle(c, codec, b, qv, ts, state.RunPayload()).Genuine?;
    assert root == Root(h, state.leaves);
    MembershipExact(h, state.Commits(), index, claim, siblings);
  }

  /** A run without subkeys has none to prove: acceptance exhibits a preimage of the zero digest or a
      collision between payloads. */
  lemma NoSubkeysNoMembers(
      c: Suite, codec: Bundle.Codec, state: CeremonyState,
      b: Bundle.PqRootBundle, qv: Bundle.QuoteVerifier, ts: Bundle.TimestampCheck,
      root: Digest, index: U32, claim: Commitment, siblings: seq<Digest>) returns (m: Bytes)
    requires state.Valid(c) && state.subkeys == []
    requires AcceptedForRun(c, codec, b, qv, ts, state.RunPayload())
    requires HexDecode(b.subkeyMerkleRoot) == Some(root) && Member(c.sha256, root, index, claim, siblings)
    ensures
      || (c.sha256(m) == ZERO_DIGEST && m in VerifierMessages(c.sha256, index, claim, siblings))
      || (m == Payload(Bundle.Claimed(b).value) && m != Payload(state.RunPayload())
          && c.sha256(m) == c.sha256(Payload(state.RunPayload())))
  {
    var v := ExtractBundle(c, codec, b, qv, ts, state.RunPayload());
    if v.Collision? {
      m := v.x;
    } else {
      assert state.Commits() == [];
      assert root == Root(c.sha256, Leaves(c.sha256, []));
      m := ExtractZeroPreimage(c.sha256, index, claim, siblings);
    }
  }

  /** Two runs attested under one commitment created the same subkeys in the same order. */
  function ExtractSameRun(c: Suite, s: CeremonyState, t: CeremonyState): (v: Verdict)
    requires s.Valid(c) && t.Valid(c) && |s.subkeys| > 0
    requires UserData(c.sha256, Payload(s.RunPayload())) == UserData(c.sha256, Payload(t.RunPayload()))
    ensures v.Genuine? ==> s.RunPayload() == t.RunPayload() && s.Commits() == t.Commits()
    ensures v.Collision? ==>
      || Collides(c.sha256, v, RunMessages(c, s), RunMessages(c, t))
      || Collides(c.sha256, v, RunMessages(c, t), RunMessages(c, s))
  {
    var mine, theirs := Payload(s.RunPayload()), Payload(t.RunPayload());
    UserDataDeterminesHash(c.sha256, mine, theirs);
    if mine != theirs then Collision(mine, theirs)
    else
      ParseOfPayload(s.RunPayload());
      ParseOfPayload(t.RunPayload());
      assert s.RunPayload().root == Root(c.sha256, s.leaves) && t.RunPayload().root == Root(c.sha256, t.leaves);
      ExtractSameList(c.sha256, s.Commits(), t.Commits())
  }
}
