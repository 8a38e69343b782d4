/** Key pairs, dual signatures and the canonical payloads. The lattice and hash-based schemes are
    arbitrary functions; the only fact ever assumed of them is that honest signatures verify. */
module Core {
  import opened Wrappers
  import opened Encoding

  const ML_DSA_PK_LEN: nat := 1952
  const ML_DSA_SIG_LEN: nat := 3309
  const SLH_DSA_PK_LEN: nat := 32
  const SLH_DSA_SIG_LEN: nat := 17088

  type MlPk = b: Bytes | |b| == ML_DSA_PK_LEN witness seq(ML_DSA_PK_LEN, _ => 0)
  type SlhPk = b: Bytes | |b| == SLH_DSA_PK_LEN witness seq(SLH_DSA_PK_LEN, _ => 0)

  /** The cryptography the code calls: ML-DSA-65 (FIPS 204), SLH-DSA-SHAKE-128f (FIPS 205), SHA-256
      and the mnemonic-to-node derivation. Signing takes its fresh randomness as an argument. */
  datatype Suite = Suite(
    sha256: Hash,
    mlKeygen: Digest -> (MlPk, Bytes),
    slhKeygen: Digest -> (SlhPk, Bytes),
    mlSign: (Bytes, Bytes, Bytes) -> Bytes,
    slhSign: (Bytes, Bytes, Bytes) -> Bytes,
    mlDecodesKey: Bytes -> bool,
    slhDecodesKey: Bytes -> bool,
    mlVerify: (Bytes, Bytes, Bytes) -> bool,
    slhVerify: (Bytes, Bytes, Bytes) -> bool,
    deriveNode: (Bytes, string) -> Result<Digest, string>)

  datatype Error = PublicKey(alg: string) | Signature(alg: string) | Verification(alg: string)

  datatype DualSignature = DualSignature(mlDsa: Bytes, slhDsa: Bytes)

  datatype KeyPair = KeyPair(mlPk: MlPk, slhPk: SlhPk, mlSk: Bytes, slhSk: Bytes)

  // ─── Keys from a seed ──────────────────────────────────────────────────────

  function SubseedMessage(domain: Bytes, seed: Digest): Bytes { domain + seed }

  function MlDomain(): Bytes { Ascii("pq-root-ml-dsa-v1") }

  function SlhDomain(): Bytes { Ascii("pq-root-slh-dsa-v1") }

  function DeriveSubseed(h: Hash, domain: Bytes, seed: Digest): Digest
  {
    h(SubseedMessage(domain, seed))
  }

  function FromSeed(c: Suite, seed: Digest): KeyPair
  {
    var ml := c.mlKeygen(DeriveSubseed(c.sha256, MlDomain(), seed));
    var slh := c.slhKeygen(DeriveSubseed(c.sha256, SlhDomain(), seed));
    KeyPair(ml.0, slh.0, ml.1, slh.1)
  }

  /** Each scheme's keys come from that scheme's key generation, seeded by the digest of its own label
      followed by the seed. */
  lemma FromSeedExact(c: Suite, seed: Digest)
    ensures var kp := FromSeed(c, seed);
      && (kp.mlPk, kp.mlSk) == c.mlKeygen(c.sha256(Ascii("pq-root-ml-dsa-v1") + seed))
      && (kp.slhPk, kp.slhSk) == c.slhKeygen(c.sha256(Ascii("pq-root-slh-dsa-v1") + seed))
  {
  }

  /** The two algorithms never expand the same message, and each message determines its node. */
  lemma SubseedsSeparated(s: Digest, t: Digest)
    ensures SubseedMessage(MlDomain(), s) != SubseedMessage(SlhDomain(), t)
    ensures SubseedMessage(MlDomain(), s) == SubseedMessage(MlDomain(), t) <==> s == t
    ensures SubseedMessage(SlhDomain(), s) == SubseedMessage(SlhDomain(), t) <==> s == t
  {
    assert |SubseedMessage(MlDomain(), s)| == 49 && |SubseedMessage(SlhDomain(), t)| == 50;
    assert SubseedMessage(MlDomain(), s)[17..] == s && SubseedMessage(MlDomain(), t)[17..] == t;
    assert SubseedMessage(SlhDomain(), s)[18..] == s && SubseedMessage(SlhDomain(), t)[18..] == t;
  }

  // ─── Signing and verifying ─────────────────────────────────────────────────

  /** Each half is that scheme's signature of the message under this pair's secret, for some randomness. */
  ghost predicate SignedBy(c: Suite, kp: KeyPair, message: Bytes, sig: DualSignature)
  {
    && (exists rnd :: sig.mlDsa == c.mlSign(kp.mlSk, message, rnd))
    && (exists rnd :: sig.slhDsa == c.slhSign(kp.slhSk, message, rnd))
  }

  /** Any bytes at all may be drawn. */
  method DrawRandomness() returns (r: Bytes)
  {
    r := *;
  }

  /** Hedged signing: any randomness may be drawn. */
  method SignPayload(c: Suite, kp: KeyPair, payload: Bytes) returns (sig: DualSignature)
    ensures exists rnd :: sig.mlDsa == c.mlSign(kp.mlSk, payload, rnd)
    ensures exists rnd :: sig.slhDsa == c.slhSign(kp.slhSk, payload, rnd)
  {
    var mlRnd := DrawRandomness();
    var slhRnd := DrawRandomness();
    sig := DualSignature(c.mlSign(kp.mlSk, payload, mlRnd), c.slhSign(kp.slhSk, payload, slhRnd));
  }

  function VerifyMlDsa(c: Suite, pk: Bytes, payload: Bytes, sig: Bytes): (r: Result<(), Error>)
    ensures r.Ok? <==> |pk| == 1952 && c.mlDecodesKey(pk) && |sig| == 3309 && c.mlVerify(pk, payload, sig)
    ensures r == Err(PublicKey("ml-dsa")) <==> |pk| != 1952 || !c.mlDecodesKey(pk)
    ensures r == Err(Signature("ml-dsa")) <==> |pk| == 1952 && c.mlDecodesKey(pk) && |sig| != 3309
    ensures r.Err? ==> r.error.alg == "ml-dsa"
  {
    if |pk| != ML_DSA_PK_LEN || !c.mlDecodesKey(pk) then Err(PublicKey("ml-dsa"))
    else if |sig| != ML_DSA_SIG_LEN then Err(Signature("ml-dsa"))
    else if c.mlVerify(pk, payload, sig) then Ok(())
    else Err(Verification("ml-dsa"))
  }

  function VerifySlhDsa(c: Suite, pk: Bytes, payload: Bytes, sig: Bytes): (r: Result<(), Error>)
    ensures r.Ok? <==> |pk| == 32 && c.slhDecodesKey(pk) && |sig| == 17088 && c.slhVerify(pk, payload, sig)
    ensures r == Err(PublicKey("slh-dsa")) <==> |pk| != 32 || !c.slhDecodesKey(pk)
    ensures r == Err(Signature("slh-dsa")) <==> |pk| == 32 && c.slhDecodesKey(pk) && |sig| != 17088
    ensures r.Err? ==> r.error.alg == "slh-dsa"
  {
    if |pk| != SLH_DSA_PK_LEN || !c.slhDecodesKey(pk) then Err(PublicKey("slh-dsa"))
    else if |sig| != SLH_DSA_SIG_LEN then Err(Signature("slh-dsa"))
    else if c.slhVerify(pk, payload, sig) then Ok(())
    else Err(Verification("slh-dsa"))
  }

  /** Both must pass; the lattice signature is reported first. */
  function VerifyDual(c: Suite, mlPk: Bytes, slhPk: Bytes, payload: Bytes, sig: DualSignature): (r: Result<(), Error>)
    ensures r.Ok? <==>
      && |mlPk| == 1952 && c.mlDecodesKey(mlPk) && |sig.mlDsa| == 3309 && c.mlVerify(mlPk, payload, sig.mlDsa)
      && |slhPk| == 32 && c.slhDecodesKey(slhPk) && |sig.slhDsa| == 17088 && c.slhVerify(slhPk, payload, sig.slhDsa)
  {
    var ml := VerifyMlDsa(c, mlPk, payload, sig.mlDsa);
    if ml.Err? then ml else VerifySlhDsa(c, slhPk, payload, sig.slhDsa)
  }

  /** What each error of the dual check means, on the schemes' own functions; nothing of the hash-based
      signature is looked at before the lattice one has passed. */
  lemma VerifyDualErrors(c: Suite, mlPk: Bytes, slhPk: Bytes, payload: Bytes, sig: DualSignature)
    ensures var r := VerifyDual(c, mlPk, slhPk, payload, sig);
      var mlKey := |mlPk| == 1952 && c.mlDecodesKey(mlPk);
      var mlPasses := mlKey && |sig.mlDsa| == 3309 && c.mlVerify(mlPk, payload, sig.mlDsa);
      var slhKey := |slhPk| == 32 && c.slhDecodesKey(slhPk);
      && (r == Err(PublicKey("ml-dsa")) <==> !mlKey)
      && (r == Err(Signature("ml-dsa")) <==> mlKey && |sig.mlDsa| != 3309)
      && (r == Err(Verification("ml-dsa")) <==>
          mlKey && |sig.mlDsa| == 3309 && !c.mlVerify(mlPk, payload, sig.mlDsa))
      && (r == Err(PublicKey("slh-dsa")) <==> mlPasses && !slhKey)
      && (r == Err(Signature("slh-dsa")) <==> mlPasses && slhKey && |sig.slhDsa| != 17088)
      && (r == Err(Verification("slh-dsa")) <==>
          mlPasses && slhKey && |sig.slhDsa| == 17088 && !c.slhVerify(slhPk, payload, sig.slhDsa))
  {
    var ml := VerifyMlDsa(c, mlPk, payload, sig.mlDsa);
    if ml.Ok? {
      assert VerifyDual(c, mlPk, slhPk, payload, sig) == VerifySlhDsa(c, slhPk, payload, sig.slhDsa);
    } else {
      assert VerifyDual(c, mlPk, slhPk, payload, sig) == ml;
    }
  }

  /** Whatever the secret signs, with whatever randomness, the public key accepts. */
  ghost predicate HonestMl(c: Suite, pk: Bytes, sk: Bytes)
  {
    && c.mlDecodesKey(pk)
    && forall message, rnd ::
         |c.mlSign(sk, message, rnd)| == 3309 && c.mlVerify(pk, message, c.mlSign(sk, message, rnd))
  }

  ghost predicate HonestSlh(c: Suite, pk: Bytes, sk: Bytes)
  {
    && c.slhDecodesKey(pk)
    && forall message, rnd ::
         |c.slhSign(sk, message, rnd)| == 17088 && c.slhVerify(pk, message, c.slhSign(sk, message, rnd))
  }

  ghost predicate HonestPair(c: Suite, kp: KeyPair)
  {
    HonestMl(c, kp.mlPk, kp.mlSk) && HonestSlh(c, kp.slhPk, kp.slhSk)
  }

  /** The one hypothesis on the schemes: whatever their key generation yields is honest. */
  ghost predicate Honest(c: Suite)
  {
    && (forall xi :: HonestMl(c, c.mlKeygen(xi).0, c.mlKeygen(xi).1))
    && (forall xi :: HonestSlh(c, c.slhKeygen(xi).0, c.slhKeygen(xi).1))
  }

  lemma SeedPairIsHonest(c: Suite, seed: Digest)
    requires Honest(c)
    ensures HonestPair(c, FromSeed(c, seed))
  {
  }

  /** The hypothesis can be met. */
  lemma HonestIsAttainable() returns (c: Suite)
    ensures Honest(c)
  {
    var mlPk: MlPk := seq(ML_DSA_PK_LEN, _ => 0);
    var slhPk: SlhPk := seq(SLH_DSA_PK_LEN, _ => 0);
    var mlSig: Bytes := seq(ML_DSA_SIG_LEN, _ => 0);
    var slhSig: Bytes := seq(SLH_DSA_SIG_LEN, _ => 0);
    c := Suite(
      _ => ZERO_DIGEST, _ => (mlPk, []), _ => (slhPk, []), (_, _, _) => mlSig, (_, _, _) => slhSig,
      _ => true, _ => true, (_, _, _) => true, (_, _, _) => true, (_, _) => Ok(ZERO_DIGEST));
  }

  lemma SignedVerifies(c: Suite, kp: KeyPair, message: Bytes, sig: DualSignature)
    requires HonestPair(c, kp) && SignedBy(c, kp, message, sig)
    ensures VerifyDual(c, kp.mlPk, kp.slhPk, message, sig).Ok?
  {
  }

  // ─── Canonical payloads ────────────────────────────────────────────────────

  /** The root-only payload: both public keys. */
  function RootPayload(mlPk: Field, slhPk: Field): Bytes
  {
    Lps([mlPk, slhPk])
  }

  /** The formula of older ceremonies: the Merkle root is bound, the count is not. */
  function LegacyPayload(mlPk: Field, slhPk: Field, root: Field): Bytes
  {
    Lps([mlPk, slhPk, root])
  }

  datatype PayloadFields = PayloadFields(mlPk: Field, slhPk: Field, root: Field, count: nat)

  function Payload(f: PayloadFields): Bytes
    requires f.count < U32_LIMIT
  {
    Lps([f.mlPk, f.slhPk, f.root]) + BE32(f.count)
  }

  method CanonicalPayload(mlPk: Field, slhPk: Field) returns (v: Bytes)
    ensures v == RootPayload(mlPk, slhPk)
  {
    v := [];
    v := v + BE32(|mlPk|);
    v := v + mlPk;
    v := v + BE32(|slhPk|);
    v := v + slhPk;
    LpsTwo(mlPk, slhPk);
  }

  method CanonicalPayloadWithSubkeys(mlPk: Field, slhPk: Field, root: Field, count: nat) returns (v: Bytes)
    requires count < U32_LIMIT
    ensures v == Payload(PayloadFields(mlPk, slhPk, root, count))
  {
    v := CanonicalPayload(mlPk, slhPk);
    v := v + BE32(|root|);
    v := v + root;
    v := v + BE32(count);
    LpsSnoc([mlPk, slhPk], root);
    assert [mlPk, slhPk] + [root] == [mlPk, slhPk, root];
  }

  lemma LpsTwoBytes(a: Field, b: Field)
    ensures Lps([a, b]) == BE32(|a|) + a + BE32(|b|) + b
  {
    LpsTwo(a, b);
  }

  lemma LpsThree(a: Field, b: Field, c: Field)
    ensures Lps([a, b, c]) == BE32(|a|) + a + BE32(|b|) + b + BE32(|c|) + c
  {
    LpsTwo(a, b);
    LpsSnoc([a, b], c);
    assert [a, b] + [c] == [a, b, c];
  }

  /** The three formulas byte for byte. */
  lemma PayloadBytes(f: PayloadFields)
    requires f.count < U32_LIMIT
    ensures RootPayload(f.mlPk, f.slhPk) == BE32(|f.mlPk|) + f.mlPk + BE32(|f.slhPk|) + f.slhPk
    ensures LegacyPayload(f.mlPk, f.slhPk, f.root) ==
      BE32(|f.mlPk|) + f.mlPk + BE32(|f.slhPk|) + f.slhPk + BE32(|f.root|) + f.root
    ensures Payload(f) ==
      BE32(|f.mlPk|) + f.mlPk + BE32(|f.slhPk|) + f.slhPk + BE32(|f.root|) + f.root + BE32(f.count)
  {
    LpsTwo(f.mlPk, f.slhPk);
    LpsThree(f.mlPk, f.slhPk, f.root);
  }

  /** The decoder: three fields and a four-byte count, nothing more. */
  function ParsePayload(v: Bytes): Option<PayloadFields>
  {
    var s := Split(v, 3);
    if s.None? || |s.value.0| != 3 || |s.value.1| != 4 then None
    else Some(PayloadFields(s.value.0[0], s.value.0[1], s.value.0[2], FromBE32(s.value.1)))
  }

  /** Uniquely decodable: the payload determines both keys, the root and the count. */
  lemma ParseOfPayload(f: PayloadFields)
    requires f.count < U32_LIMIT
    ensures ParsePayload(Payload(f)) == Some(f)
  {
    SplitOfLps([f.mlPk, f.slhPk, f.root], BE32(f.count));
    BE32RoundTrip(f.count);
  }

  lemma PayloadOfParse(v: Bytes)
    ensures var p := ParsePayload(v); p.Some? ==> p.value.count < U32_LIMIT && Payload(p.value) == v
  {
    SplitExact(v, 3);
    var p := ParsePayload(v);
    if p.Some? {
      var s := Split(v, 3).value;
      assert s.0 == [p.value.mlPk, p.value.slhPk, p.value.root];
      BE32Onto(s.1);
    }
  }

  /** Root-only, legacy and current payloads are three disjoint languages. */
  lemma FormulasDisjoint(ml: Field, slh: Field, legacyMl: Field, legacySlh: Field, legacyRoot: Field, f: PayloadFields)
    requires f.count < U32_LIMIT
    ensures RootPayload(ml, slh) != LegacyPayload(legacyMl, legacySlh, legacyRoot)
    ensures RootPayload(ml, slh) != Payload(f)
    ensures LegacyPayload(legacyMl, legacySlh, legacyRoot) != Payload(f)
  {
    SplitOfLps([f.mlPk, f.slhPk, f.root], BE32(f.count));
    var legacy := [legacyMl, legacySlh, legacyRoot];
    SplitOfLps(legacy, []);
    assert Lps(legacy) + [] == Lps(legacy);
    RootPayloadHasTwoFields(ml, slh);
  }

  lemma RootPayloadHasTwoFields(ml: Field, slh: Field)
    ensures Split(RootPayload(ml, slh), 3) == None
  {
    LpsTwo(ml, slh);
    TakeFieldOfLp(ml, Lp(slh));
    TakeFieldOfLp(slh, []);
    assert Lp(slh) + [] == Lp(slh);
    assert Split([], 1) == None;
    assert Split(Lp(slh), 2) == None;
  }

  // ─── The attested commitment ───────────────────────────────────────────────

  function UserDataPrefix(): Bytes { Ascii("pq-keyfork-v1:") }

  function UserData(h: Hash, payload: Bytes): Bytes
  {
    UserDataPrefix() + h(payload)
  }

  lemma UserDataBytes(h: Hash, f: PayloadFields)
    requires f.count < U32_LIMIT
    ensures UserData(h, Payload(f)) == Ascii("pq-keyfork-v1:") +
      h(BE32(|f.mlPk|) + f.mlPk + BE32(|f.slhPk|) + f.slhPk + BE32(|f.root|) + f.root + BE32(f.count))
  {
    PayloadBytes(f);
  }

  lemma UserDataDeterminesHash(h: Hash, x: Bytes, y: Bytes)
    requires UserData(h, x) == UserData(h, y)
    ensures h(x) == h(y)
  {
    assert UserData(h, x)[14..] == h(x) && UserData(h, y)[14..] == h(y);
  }
}
