/** The in-enclave ceremony: two derivation lanes, one committed tree, one signed and attested payload. */
module Ceremony {
  import opened Wrappers
  import opened Encoding
  import opened Core
  import opened Merkle
  import opened MerkleSoundness
  import opened Derive
  import Bundle

  datatype NsmError = UnexpectedResponse | NsmFailure(message: string)

  /** The security module: attestation documents and PCR values, as arbitrary functions. */
  datatype Nsm = Nsm(
    attest: (Bytes, Option<Bytes>, Option<Bytes>) -> Result<Bytes, NsmError>,
    describePcr: nat -> Result<Bytes, NsmError>)

  datatype Error = FromNsm(error: NsmError) | FromDerive(message: string)

  /** How many subkeys each lane gets. */
  datatype Config = Config(authCount: U32, encCount: U32) {
    function Total(): nat { authCount + encCount }

    /** Every lane index is a hardened index and the running index stays a u32. */
    predicate Fits()
    {
      authCount <= HARDENED_LIMIT && encCount <= HARDENED_LIMIT && Total() < U32_LIMIT
    }
  }

  datatype SubkeyRecord = SubkeyRecord(
    globalIndex: U32,
    account: nat,
    accountIndex: nat,
    purposeTag: byte,
    mlDsaPk: MlPk,
    slhDsaPk: SlhPk)

  function CommitmentOf(r: SubkeyRecord): Commitment
  {
    Commitment(r.purposeTag, r.mlDsaPk, r.slhDsaPk)
  }

  function CommitmentsOf(records: seq<SubkeyRecord>): (r: seq<Commitment>)
    ensures |r| == |records|
  {
    seq(|records|, i requires 0 <= i < |records| => CommitmentOf(records[i]))
  }

  /** The first record with the given index. */
  function FindRecord(records: seq<SubkeyRecord>, globalIndex: U32): Option<SubkeyRecord>
  {
    if records == [] then None
    else if records[0].globalIndex == globalIndex then Some(records[0])
    else FindRecord(records[1..], globalIndex)
  }

  lemma {:induction false} FindRecordAt(records: seq<SubkeyRecord>, start: nat, globalIndex: U32)
    requires forall i :: 0 <= i < |records| ==> records[i].globalIndex == start + i
    ensures FindRecord(records, globalIndex) ==
      if start <= globalIndex < start + |records| then Some(records[globalIndex - start]) else None
  {
    if records != [] && records[0].globalIndex != globalIndex {
      FindRecordAt(records[1..], start + 1, globalIndex);
    }
  }

  // ─── What a run is to produce ──────────────────────────────────────────────

  /** Account (which is also the purpose tag) and in-lane index of the i-th subkey. */
  function Lane(config: Config, i: nat): (nat, nat)
  {
    if i < config.authCount then (1, i) else (2, i - config.authCount)
  }

  function RecordAt(c: Suite, mnemonic: Bytes, config: Config, i: U32): Result<SubkeyRecord, string>
  {
    var (account, accountIndex) := Lane(config, i);
    var kp := DeriveKeypair(c, mnemonic, account, accountIndex);
    if kp.Err? then Err(kp.error)
    else Ok(SubkeyRecord(i, account, accountIndex, if account == 1 then 1 else 2, kp.value.mlPk, kp.value.slhPk))
  }

  /** The first derivation to fail from position `i` on. */
  function DeriveFailure(c: Suite, mnemonic: Bytes, config: Config, i: nat): (r: Option<string>)
    requires config.Fits() && i <= config.Total()
    ensures r.None? <==> forall j: U32 :: i <= j < config.Total() ==> RecordAt(c, mnemonic, config, j).Ok?
    decreases config.Total() - i
  {
    if i == config.Total() then None
    else
      var rec := RecordAt(c, mnemonic, config, i);
      if rec.Err? then Some(rec.error) else DeriveFailure(c, mnemonic, config, i + 1)
  }

  predicate Derivable(c: Suite, mnemonic: Bytes, config: Config)
    requires config.Fits()
  {
    DeriveKeypair(c, mnemonic, 0, 0).Ok? && DeriveFailure(c, mnemonic, config, 0).None?
  }

  function Records(c: Suite, mnemonic: Bytes, config: Config): (r: seq<SubkeyRecord>)
    requires config.Fits() && DeriveFailure(c, mnemonic, config, 0).None?
    ensures |r| == config.Total()
  {
    seq(config.Total(), i requires 0 <= i < config.Total() => RecordAt(c, mnemonic, config, i).value)
  }

  /** The payload determined by a root key pair and its subkeys. */
  function PayloadOf(h: Hash, root: KeyPair, records: seq<SubkeyRecord>): PayloadFields
    requires |records| < U32_LIMIT
  {
    PayloadFields(root.mlPk, root.slhPk, Root(h, Leaves(h, CommitmentsOf(records))), |records|)
  }

  /** What is attested: the commitment to the payload, nothing else. */
  function Attestation(c: Suite, nsm: Nsm, payload: Bytes): Result<Bytes, NsmError>
  {
    nsm.attest(UserData(c.sha256, payload), None, None)
  }

  /** The first thing to go wrong in a run, if anything does. */
  function Failure(c: Suite, nsm: Nsm, config: Config, mnemonic: Bytes): Option<Error>
    requires config.Fits()
  {
    var root := DeriveKeypair(c, mnemonic, 0, 0);
    var subkeys := DeriveFailure(c, mnemonic, config, 0);
    if root.Err? then Some(FromDerive(root.error))
    else if subkeys.Some? then Some(FromDerive(subkeys.value))
    else
      var payload := Payload(PayloadOf(c.sha256, root.value, Records(c, mnemonic, config)));
      var quote := Attestation(c, nsm, payload);
      if quote.Err? then Some(FromNsm(quote.error))
      else if nsm.describePcr(0).Err? then Some(FromNsm(nsm.describePcr(0).error))
      else if nsm.describePcr(1).Err? then Some(FromNsm(nsm.describePcr(1).error))
      else if nsm.describePcr(2).Err? then Some(FromNsm(nsm.describePcr(2).error))
      else None
  }

  // ─── The state a run leaves ────────────────────────────────────────────────

  class CeremonyState {
    const bundle: Bundle.PqRootBundle
    const subkeys: seq<SubkeyRecord>
    const mnemonic: Bytes
    const leaves: seq<Digest>

    constructor (bundle: Bundle.PqRootBundle, subkeys: seq<SubkeyRecord>, mnemonic: Bytes, leaves: seq<Digest>)
      ensures this.bundle == bundle && this.subkeys == subkeys && this.mnemonic == mnemonic && this.leaves == leaves
    {
      this.bundle := bundle;
      this.subkeys := subkeys;
      this.mnemonic := mnemonic;
      this.leaves := leaves;
    }

    /** The key pair a record was derived from, in one of the two subkey lanes. */
    ghost predicate HasKeyPair(c: Suite, r: SubkeyRecord)
    {
      && (r.account == 1 || r.account == 2) && r.purposeTag as int == r.account
      && var kp := DeriveKeypair(c, mnemonic, r.account, r.accountIndex);
      kp.Ok? && kp.value.mlPk == r.mlDsaPk && kp.value.slhPk == r.slhDsaPk
    }

    ghost predicate Valid(c: Suite)
    {
      && |subkeys| < U32_LIMIT
      && (forall i :: 0 <= i < |subkeys| ==> subkeys[i].globalIndex == i && HasKeyPair(c, subkeys[i]))
      && leaves == Leaves(c.sha256, CommitmentsOf(subkeys))
      && var root := DeriveKeypair(c, mnemonic, 0, 0);
      && root.Ok?
      && var f := PayloadOf(c.sha256, root.value, subkeys);
      && Bundle.Claimed(bundle) == Some(f)
      && HexDecode(bundle.mlDsaSig).Some? && HexDecode(bundle.slhDsaSig).Some?
      && SignedBy(c, root.value, Payload(f),
                  DualSignature(HexDecode(bundle.mlDsaSig).value, HexDecode(bundle.slhDsaSig).value))
    }

    /** The payload this run signed and had attested. */
    function RunPayload(): PayloadFields
      requires Bundle.Claimed(bundle).Some?
    {
      Bundle.Claimed(bundle).value
    }

    function Commits(): seq<Commitment>
    {
      CommitmentsOf(subkeys)
    }

    function PathFor(c: Suite, globalIndex: U32): Option<seq<Digest>>
    {
      if globalIndex >= |leaves| then None else Some(Path(c.sha256, leaves, globalIndex))
    }

    method Proof(c: Suite, globalIndex: U32) returns (r: Option<seq<Digest>>)
      ensures r == PathFor(c, globalIndex)
    {
      if globalIndex >= |leaves| {
        return None;
      }
      var path := MerkleProof(c.sha256, leaves, globalIndex);
      return Some(path);
    }

    /** What answering a signing request may yield; the signature itself is not determined. */
    ghost predicate MayAnswer(
        c: Suite, globalIndex: U32, message: Bytes, r: Option<(DualSignature, seq<Digest>)>)
    {
      var rec := FindRecord(subkeys, globalIndex);
      && (r.Some? <==>
          && rec.Some? && DeriveKeypair(c, mnemonic, rec.value.account, rec.value.accountIndex).Ok?
          && PathFor(c, globalIndex).Some?)
      && (r.Some? ==>
          && SignedBy(c, DeriveKeypair(c, mnemonic, rec.value.account, rec.value.accountIndex).value,
                      message, r.value.0)
          && PathFor(c, globalIndex) == Some(r.value.1))
    }

    method SignWithSubkey(c: Suite, globalIndex: U32, message: Bytes)
        returns (r: Option<(DualSignature, seq<Digest>)>)
      ensures MayAnswer(c, globalIndex, message, r)
    {
      var rec := FindRecord(subkeys, globalIndex);
      if rec.None? {
        return None;
      }
      var kp := DeriveKeypair(c, mnemonic, rec.value.account, rec.value.accountIndex);
      if kp.Err? {
        return None;
      }
      var sig := SignPayload(c, kp.value, message);
      var path := Proof(c, globalIndex);
      if path.None? {
        return None;
      }
      return Some((sig, path.value));
    }
  }

  // ─── The run ───────────────────────────────────────────────────────────────

  /** Position of a lane's first subkey. */
  function LaneStart(config: Config, lane: nat): nat
  {
    if lane == 0 then 0 else if lane == 1 then config.authCount else config.Total()
  }

  /** The inner loop: every index of one lane, continuing the running index. */
  method DeriveLane(c: Suite, mnemonic: Bytes, ghost config: Config, ghost lane: nat,
                    account: nat, purposeTag: byte, count: U32, subkeys0: seq<SubkeyRecord>, leaves0: seq<Digest>)
      returns (r: Result<(seq<SubkeyRecord>, seq<Digest>), string>)
    requires config.Fits() && lane < 2
    requires account == lane + 1 && purposeTag as int == account
    requires count == if lane == 0 then config.authCount else config.encCount
    requires Progress(c, mnemonic, config, LaneStart(config, lane), subkeys0, leaves0)
    ensures r.Err? ==> DeriveFailure(c, mnemonic, config, 0) == Some(r.error)
    ensures r.Ok? ==> Progress(c, mnemonic, config, LaneStart(config, lane + 1), r.value.0, r.value.1)
    ensures r.Ok? ==>
      && subkeys0 <= r.value.0 && leaves0 <= r.value.1
      && LaneLies(c, mnemonic, account, purposeTag, |subkeys0|, count, r.value.0, r.value.1)
  {
    var subkeys, leaves := subkeys0, leaves0;
    var globalIndex: U32 := |subkeys0|;
    for accountIndex := 0 to count
      invariant globalIndex == LaneStart(config, lane) + accountIndex
      invariant Progress(c, mnemonic, config, globalIndex, subkeys, leaves)
      invariant subkeys0 <= subkeys && leaves0 <= leaves
    {
      assert Lane(config, globalIndex) == (account, accountIndex);
      var kp := DeriveKeypair(c, mnemonic, account, accountIndex);
      if kp.Err? {
        ProgressStops(c, mnemonic, config, globalIndex, subkeys, leaves);
        return Err(kp.error);
      }
      var record := SubkeyRecord(globalIndex, account, accountIndex, purposeTag, kp.value.mlPk, kp.value.slhPk);
      ProgressContinues(c, mnemonic, config, globalIndex, subkeys, leaves, record);
      leaves := leaves + [SubkeyLeaf(c.sha256, globalIndex, CommitmentOf(record))];
      subkeys := subkeys + [record];
      globalIndex := globalIndex + 1;
    }
    ProgressLies(c, mnemonic, config, lane, account, purposeTag, count, subkeys, leaves);
    return Ok((subkeys, leaves));
  }

  method DeriveSubkeys(c: Suite, mnemonic: Bytes, config: Config)
      returns (r: Result<(seq<SubkeyRecord>, seq<Digest>), string>)
    requires config.Fits()
    ensures r.Err? ==> DeriveFailure(c, mnemonic, config, 0) == Some(r.error)
    ensures r.Ok? ==>
      && DeriveFailure(c, mnemonic, config, 0).None?
      && r.value.0 == Records(c, mnemonic, config)
      && r.value.1 == Leaves(c.sha256, CommitmentsOf(r.value.0))
      && LaidOut(c, mnemonic, config, r.value.0, r.value.1)
  {
    var subkeys: seq<SubkeyRecord> := [];
    var leaves: seq<Digest> := [];
    var lanes: seq<(nat, byte, U32)> := [(1, 1, config.authCount), (2, 2, config.encCount)];
    for lane := 0 to 2
      invariant Progress(c, mnemonic, config, LaneStart(config, lane), subkeys, leaves)
    {
      var (account, purposeTag, count) := lanes[lane];
      var derived := DeriveLane(c, mnemonic, config, lane, account, purposeTag, count, subkeys, leaves);
      if derived.Err? {
        return derived;
      }
      subkeys, leaves := derived.value.0, derived.value.1;
    }
    ProgressEnds(c, mnemonic, config, subkeys, leaves);
    ProgressLies(c, mnemonic, config, 0, 1, 1, config.authCount, subkeys, leaves);
    ProgressLies(c, mnemonic, config, 1, 2, 2, config.encCount, subkeys, leaves);
    return Ok((subkeys, leaves));
  }

  ghost predicate Progress(
      c: Suite, mnemonic: Bytes, config: Config, done: nat, subkeys: seq<SubkeyRecord>, leaves: seq<Digest>)
    requires config.Fits()
  {
    && done <= config.Total() && |subkeys| == |leaves| == done
    && (forall i: U32 :: i < done ==> RecordAt(c, mnemonic, config, i) == Ok(subkeys[i]))
    && (forall i: U32 :: i < done ==> leaves[i] == SubkeyLeaf(c.sha256, i, CommitmentOf(subkeys[i])))
  }

  /** Position `p` of a run is subkey `k` of an account: its record, the keys belonging to that account's
      path number `k`, and the leaf byte for byte. */
  ghost predicate LiesAt(
      c: Suite, mnemonic: Bytes, account: nat, tag: byte, k: nat, p: U32, rec: SubkeyRecord, leaf: Digest)
  {
    && rec.globalIndex == p && rec.account == account && rec.accountIndex == k && rec.purposeTag == tag
    && KeysAt(c, mnemonic, "m/" + Decimal(account) + "'/" + Decimal(k) + "'", rec.mlDsaPk, rec.slhDsaPk)
    && leaf == c.sha256([0] + BE32(p) + [tag] + BE32(1952) + rec.mlDsaPk + BE32(32) + rec.slhDsaPk)
  }

  /** From position `first` on come subkeys 0, 1, 2, … of one account. */
  ghost predicate LaneLies(
      c: Suite, mnemonic: Bytes, account: nat, tag: byte, first: nat, count: nat,
      subkeys: seq<SubkeyRecord>, leaves: seq<Digest>)
  {
    && first + count <= |subkeys| == |leaves| < U32_LIMIT
    && forall p: U32 :: first <= p < first + count ==>
         LiesAt(c, mnemonic, account, tag, p - first, p, subkeys[p], leaves[p])
  }

  /** First the authentication subkeys, from account 1, then the encryption subkeys, from account 2. */
  ghost predicate LaidOut(
      c: Suite, mnemonic: Bytes, config: Config, subkeys: seq<SubkeyRecord>, leaves: seq<Digest>)
  {
    && |subkeys| == config.authCount + config.encCount
    && LaneLies(c, mnemonic, 1, 1, 0, config.authCount, subkeys, leaves)
    && LaneLies(c, mnemonic, 2, 2, config.authCount, config.encCount, subkeys, leaves)
  }

  lemma {:induction false} ProgressLies(
      c: Suite, mnemonic: Bytes, config: Config, lane: nat, account: nat, tag: byte, count: nat,
      subkeys: seq<SubkeyRecord>, leaves: seq<Digest>)
    requires config.Fits() && lane < 2 && account == lane + 1 == tag as int
    requires LaneStart(config, lane) + count == LaneStart(config, lane + 1) <= |subkeys|
    requires Progress(c, mnemonic, config, |subkeys|, subkeys, leaves)
    ensures LaneLies(c, mnemonic, account, tag, LaneStart(config, lane), count, subkeys, leaves)
  {
    var first := LaneStart(config, lane);
    forall p: U32 | first <= p < first + count {
      LiesInLane(c, mnemonic, config, lane, account, tag, p, subkeys, leaves);
    }
  }

  lemma LiesInLane(
      c: Suite, mnemonic: Bytes, config: Config, lane: nat, account: nat, tag: byte, p: U32,
      subkeys: seq<SubkeyRecord>, leaves: seq<Digest>)
    requires config.Fits() && lane < 2 && account == lane + 1 == tag as int
    requires LaneStart(config, lane) <= p < LaneStart(config, lane + 1) <= |subkeys|
    requires Progress(c, mnemonic, config, |subkeys|, subkeys, leaves)
    ensures LiesAt(c, mnemonic, account, tag, p - LaneStart(config, lane), p, subkeys[p], leaves[p])
  {
    assert RecordAt(c, mnemonic, config, p) == Ok(subkeys[p]);
    RecordLies(c, mnemonic, config, account, tag, p - LaneStart(config, lane), p, subkeys[p], leaves[p]);
  }

  lemma RecordLies(
      c: Suite, mnemonic: Bytes, config: Config, account: nat, tag: byte, k: nat, p: U32, rec: SubkeyRecord,
      leaf: Digest)
    requires if p < config.authCount then account == 1 && k == p else account == 2 && k == p - config.authCount
    requires tag as int == account
    requires RecordAt(c, mnemonic, config, p) == Ok(rec) && leaf == SubkeyLeaf(c.sha256, p, CommitmentOf(rec))
    ensures LiesAt(c, mnemonic, account, tag, k, p, rec, leaf)
  {
    DeriveKeypairExact(c, mnemonic, account, k);
    LeafBytes(c.sha256, p, CommitmentOf(rec));
  }

  lemma ProgressContinues(
      c: Suite, mnemonic: Bytes, config: Config, done: U32, subkeys: seq<SubkeyRecord>, leaves: seq<Digest>,
      record: SubkeyRecord)
    requires config.Fits() && Progress(c, mnemonic, config, done, subkeys, leaves)
    requires done < config.Total() && RecordAt(c, mnemonic, config, done) == Ok(record)
    ensures Progress(c, mnemonic, config, done + 1, subkeys + [record],
                     leaves + [SubkeyLeaf(c.sha256, done, CommitmentOf(record))])
  {
  }

  lemma ProgressStops(
      c: Suite, mnemonic: Bytes, config: Config, done: U32, subkeys: seq<SubkeyRecord>, leaves: seq<Digest>)
    requires config.Fits() && Progress(c, mnemonic, config, done, subkeys, leaves)
    requires done < config.Total() && RecordAt(c, mnemonic, config, done).Err?
    ensures DeriveFailure(c, mnemonic, config, 0) == Some(RecordAt(c, mnemonic, config, done).error)
  {
    DeriveFailureSkips(c, mnemonic, config, 0, done);
  }

  lemma {:induction false} DeriveFailureSkips(c: Suite, mnemonic: Bytes, config: Config, i: nat, done: nat)
    requires config.Fits() && i <= done <= config.Total()
    requires forall j: U32 :: i <= j < done ==> RecordAt(c, mnemonic, config, j).Ok?
    ensures DeriveFailure(c, mnemonic, config, i) == DeriveFailure(c, mnemonic, config, done)
    decreases done - i
  {
    if i < done {
      assert RecordAt(c, mnemonic, config, i).Ok?;
      DeriveFailureSkips(c, mnemonic, config, i + 1, done);
    }
  }

  lemma ProgressEnds(c: Suite, mnemonic: Bytes, config: Config, subkeys: seq<SubkeyRecord>, leaves: seq<Digest>)
    requires config.Fits() && Progress(c, mnemonic, config, config.Total(), subkeys, leaves)
    ensures DeriveFailure(c, mnemonic, config, 0).None? && subkeys == Records(c, mnemonic, config)
    ensures leaves == Leaves(c.sha256, CommitmentsOf(subkeys))
  {
    var expected := Leaves(c.sha256, CommitmentsOf(subkeys));
    forall i: U32 | i < |leaves|
      ensures leaves[i] == expected[i]
    {
      assert LeafMessages(CommitmentsOf(subkeys))[i] == LeafMessage(i, CommitmentOf(subkeys[i]));
    }
  }

  /** `mnemonic` is what fresh enclave entropy was turned into. */
  method RunCeremony(
      c: Suite, codec: Bundle.Codec, nsm: Nsm, rootCaDer: Bytes, config: Config, mnemonic: Bytes)
      returns (r: Result<CeremonyState, Error>)
    requires config.Fits()
    ensures Failure(c, nsm, config, mnemonic) == if r.Err? then Some(r.error) else None
    ensures r.Ok? ==>
      && r.value.Valid(c) && r.value.mnemonic == mnemonic
      && r.value.subkeys == Records(c, mnemonic, config)
      && Recorded(c, codec, nsm, rootCaDer, r.value.bundle)
      && LaidOut(c, mnemonic, config, r.value.subkeys, r.value.leaves)
      && Sealed(c, codec, nsm, rootCaDer, mnemonic, r.value.leaves, r.value.bundle)
  {
    var root := DeriveKeypair(c, mnemonic, 0, 0);
    if root.Err? {
      return Err(FromDerive(root.error));
    }
    var derived := DeriveSubkeys(c, mnemonic, config);
    if derived.Err? {
      return Err(FromDerive(derived.error));
    }
    var subkeys, leaves := derived.value.0, derived.value.1;
    var subkeyRoot := MerkleRoot(c.sha256, leaves);
    var payload := CanonicalPayloadWithSubkeys(root.value.mlPk, root.value.slhPk, subkeyRoot, |subkeys|);
    var sig := SignPayload(c, root.value, payload);
    var quote := nsm.attest(UserData(c.sha256, payload), None, None);
    if quote.Err? {
      return Err(FromNsm(quote.error));
    }
    var pcr0 := nsm.describePcr(0);
    if pcr0.Err? {
      return Err(FromNsm(pcr0.error));
    }
    var pcr1 := nsm.describePcr(1);
    if pcr1.Err? {
      return Err(FromNsm(pcr1.error));
    }
    var pcr2 := nsm.describePcr(2);
    if pcr2.Err? {
      return Err(FromNsm(pcr2.error));
    }
    var bundle := Bundle.PqRootBundle(
      "2", HexEncode(root.value.mlPk), HexEncode(root.value.slhPk), codec.base64Encode(quote.value),
      HexEncode(c.sha256(rootCaDer)),
      Bundle.ExpectedPcrs(HexEncode(pcr0.value), HexEncode(pcr1.value), HexEncode(pcr2.value)),
      HexEncode(subkeyRoot), |subkeys|, HexEncode(sig.mlDsa), HexEncode(sig.slhDsa));
    var state := new CeremonyState(bundle, subkeys, mnemonic, leaves);
    RunIsComplete(c, codec, nsm, rootCaDer, config, state, sig, quote.value);
    return Ok(state);
  }

  /** What a root signs and has attested for a tree of leaves, in bytes. */
  ghost function SealedPayload(c: Suite, mlPk: MlPk, slhPk: SlhPk, leaves: seq<Digest>): Bytes
    requires |leaves| < U32_LIMIT
  {
    BE32(1952) + mlPk + BE32(32) + slhPk + BE32(32) + Root(c.sha256, leaves) + BE32(|leaves|)
  }

  /** The whole bundle over a tree of leaves: keys of `m/0'/0'`, signatures of the payload under their
      secrets, the quote for the payload's commitment and nothing else, PCRs 0 to 2 and the root CA. */
  ghost predicate Sealed(
      c: Suite, codec: Bundle.Codec, nsm: Nsm, rootCaDer: Bytes, mnemonic: Bytes, leaves: seq<Digest>,
      b: Bundle.PqRootBundle)
  {
    && |leaves| < U32_LIMIT
    && exists mlPk: MlPk, slhPk: SlhPk, sig: DualSignature, quote: Bytes ::
         && SealedWith(c, nsm, mnemonic, leaves, mlPk, slhPk, sig, quote)
         && nsm.describePcr(0).Ok? && nsm.describePcr(1).Ok? && nsm.describePcr(2).Ok?
         && b == Bundle.PqRootBundle(
              "2", HexEncode(mlPk), HexEncode(slhPk), codec.base64Encode(quote), HexEncode(c.sha256(rootCaDer)),
              Bundle.ExpectedPcrs(HexEncode(nsm.describePcr(0).value), HexEncode(nsm.describePcr(1).value),
                                  HexEncode(nsm.describePcr(2).value)),
              HexEncode(Root(c.sha256, leaves)), |leaves|, HexEncode(sig.mlDsa), HexEncode(sig.slhDsa))
  }

  ghost predicate SealedWith(
      c: Suite, nsm: Nsm, mnemonic: Bytes, leaves: seq<Digest>, mlPk: MlPk, slhPk: SlhPk, sig: DualSignature,
      quote: Bytes)
    requires |leaves| < U32_LIMIT
  {
    var payload := SealedPayload(c, mlPk, slhPk, leaves);
    && KeysAt(c, mnemonic, "m/0'/0'", mlPk, slhPk) && SignedAt(c, mnemonic, "m/0'/0'", payload, sig)
    && nsm.attest(Ascii("pq-keyfork-v1:") + c.sha256(payload), None, None) == Ok(quote)
  }

  lemma {:induction false} PayloadIsSealed(
      c: Suite, nsm: Nsm, mnemonic: Bytes, leaves: seq<Digest>, payload: Bytes, sig: DualSignature, quote: Bytes)
    requires |leaves| < U32_LIMIT && DeriveKeypair(c, mnemonic, 0, 0).Ok?
    requires var root := DeriveKeypair(c, mnemonic, 0, 0).value;
      && payload == Payload(PayloadFields(root.mlPk, root.slhPk, Root(c.sha256, leaves), |leaves|))
      && SignedBy(c, root, payload, sig)
    requires nsm.attest(UserData(c.sha256, payload), None, None) == Ok(quote)
    ensures var root := DeriveKeypair(c, mnemonic, 0, 0).value;
      SealedWith(c, nsm, mnemonic, leaves, root.mlPk, root.slhPk, sig, quote)
  {
    var root := DeriveKeypair(c, mnemonic, 0, 0).value;
    var f := PayloadFields(root.mlPk, root.slhPk, Root(c.sha256, leaves), |leaves|);
    DeriveKeypairExact(c, mnemonic, 0, 0);
    assert "m/" + Decimal(0) + "'/" + Decimal(0) + "'" == "m/0'/0'" by { RootPath(); }
    PayloadBytes(f);
    UserDataBytes(c.sha256, f);
  }

  lemma RunIsValid(c: Suite, state: CeremonyState, config: Config, sig: DualSignature)
    requires config.Fits() && Derivable(c, state.mnemonic, config)
    requires state.subkeys == Records(c, state.mnemonic, config)
    requires state.leaves == Leaves(c.sha256, state.Commits())
    requires var root := DeriveKeypair(c, state.mnemonic, 0, 0).value;
      var f := PayloadOf(c.sha256, root, state.subkeys);
      && Bundle.Claimed(state.bundle) == Some(f) && SignedBy(c, root, Payload(f), sig)
      && HexDecode(state.bundle.mlDsaSig) == Some(sig.mlDsa) && HexDecode(state.bundle.slhDsaSig) == Some(sig.slhDsa)
    ensures state.Valid(c)
  {
    forall i: U32 | i < |state.subkeys|
      ensures state.subkeys[i].globalIndex == i && state.HasKeyPair(c, state.subkeys[i])
    {
      assert state.subkeys[i] == RecordAt(c, state.mnemonic, config, i).value;
    }
  }

  lemma {:induction false} BundleIsSealed(
      c: Suite, codec: Bundle.Codec, nsm: Nsm, rootCaDer: Bytes, mnemonic: Bytes, leaves: seq<Digest>,
      sig: DualSignature, quote: Bytes, b: Bundle.PqRootBundle)
    requires DeriveKeypair(c, mnemonic, 0, 0).Ok?
    requires Assembled(c, codec, nsm, rootCaDer, DeriveKeypair(c, mnemonic, 0, 0).value, leaves, sig, quote, b)
    ensures Sealed(c, codec, nsm, rootCaDer, mnemonic, leaves, b)
  {
    var root := DeriveKeypair(c, mnemonic, 0, 0).value;
    var payload := Payload(PayloadFields(root.mlPk, root.slhPk, Root(c.sha256, leaves), |leaves|));
    PayloadIsSealed(c, nsm, mnemonic, leaves, payload, sig, quote);
  }

  /** The bundle is assembled from these parts. */
  ghost predicate Assembled(
      c: Suite, codec: Bundle.Codec, nsm: Nsm, rootCaDer: Bytes, root: KeyPair, leaves: seq<Digest>,
      sig: DualSignature, quote: Bytes, b: Bundle.PqRootBundle)
  {
    && |leaves| < U32_LIMIT
    && nsm.describePcr(0).Ok? && nsm.describePcr(1).Ok? && nsm.describePcr(2).Ok?
    && b == Bundle.PqRootBundle(
         "2", HexEncode(root.mlPk), HexEncode(root.slhPk), codec.base64Encode(quote), HexEncode(c.sha256(rootCaDer)),
         Bundle.ExpectedPcrs(HexEncode(nsm.describePcr(0).value), HexEncode(nsm.describePcr(1).value),
                             HexEncode(nsm.describePcr(2).value)),
         HexEncode(Root(c.sha256, leaves)), |leaves|, HexEncode(sig.mlDsa), HexEncode(sig.slhDsa))
    && var payload := Payload(PayloadFields(root.mlPk, root.slhPk, Root(c.sha256, leaves), |leaves|));
    SignedBy(c, root, payload, sig) && nsm.attest(UserData(c.sha256, payload), None, None) == Ok(quote)
  }

  lemma RunIsComplete(
      c: Suite, codec: Bundle.Codec, nsm: Nsm, rootCaDer: Bytes, config: Config, state: CeremonyState,
      sig: DualSignature, quote: Bytes)
    requires config.Fits() && Derivable(c, state.mnemonic, config)
    requires state.subkeys == Records(c, state.mnemonic, config)
    requires state.leaves == Leaves(c.sha256, state.Commits())
    requires Assembled(c, codec, nsm, rootCaDer, DeriveKeypair(c, state.mnemonic, 0, 0).value, state.leaves, sig,
                       quote, state.bundle)
    ensures state.Valid(c) && Recorded(c, codec, nsm, rootCaDer, state.bundle)
    ensures Sealed(c, codec, nsm, rootCaDer, state.mnemonic, state.leaves, state.bundle)
  {
    var root := DeriveKeypair(c, state.mnemonic, 0, 0).value;
    BundleReadsBack(root, Root(c.sha256, state.leaves), sig, state.bundle);
    RunIsValid(c, state, config, sig);
    BundleIsSealed(c, codec, nsm, rootCaDer, state.mnemonic, state.leaves, sig, quote, state.bundle);
  }

  lemma BundleReadsBack(root: KeyPair, subkeyRoot: Digest, sig: DualSignature, b: Bundle.PqRootBundle)
    requires b.mlDsaPk == HexEncode(root.mlPk) && b.slhDsaPk == HexEncode(root.slhPk)
    requires b.subkeyMerkleRoot == HexEncode(subkeyRoot)
    requires b.mlDsaSig == HexEncode(sig.mlDsa) && b.slhDsaSig == HexEncode(sig.slhDsa)
    ensures Bundle.Claimed(b) == Some(PayloadFields(root.mlPk, root.slhPk, subkeyRoot, b.subkeyCount))
    ensures HexDecode(b.mlDsaSig) == Some(sig.mlDsa) && HexDecode(b.slhDsaSig) == Some(sig.slhDsa)
  {
    HexRoundTrip(root.mlPk);
    HexRoundTrip(root.slhPk);
    HexRoundTrip(subkeyRoot);
    HexRoundTrip(sig.mlDsa);
    HexRoundTrip(sig.slhDsa);
  }

  /** The parts of the bundle read off the environment: version, quote, PCRs and root CA digest. */
  ghost predicate Recorded(c: Suite, codec: Bundle.Codec, nsm: Nsm, rootCaDer: Bytes, b: Bundle.PqRootBundle)
  {
    && b.version == "2"
    && b.awsRootCaSha256 == HexEncode(c.sha256(rootCaDer))
    && Bundle.Claimed(b).Some?
    && var quote := Attestation(c, nsm, Payload(Bundle.Claimed(b).value));
    && quote.Ok? && b.nsmQuote == codec.base64Encode(quote.value)
    && nsm.describePcr(0).Ok? && nsm.describePcr(1).Ok? && nsm.describePcr(2).Ok?
    && b.expectedPcrs == Bundle.ExpectedPcrs(
         HexEncode(nsm.describePcr(0).value), HexEncode(nsm.describePcr(1).value), HexEncode(nsm.describePcr(2).value))
  }

  // ─── What can go wrong ─────────────────────────────────────────────────────

  /** Looking up the node of the p-th subkey: account 1 for the first lane, 2 for the second, each counted
      from 0. */
  function NodeFor(c: Suite, mnemonic: Bytes, config: Config, p: nat): Result<Digest, string>
  {
    if p < config.authCount then c.deriveNode(mnemonic, "m/1'/" + Decimal(p) + "'")
    else c.deriveNode(mnemonic, "m/2'/" + Decimal(p - config.authCount) + "'")
  }

  lemma RecordFails(c: Suite, mnemonic: Bytes, config: Config, p: U32)
    ensures var node, rec := NodeFor(c, mnemonic, config, p), RecordAt(c, mnemonic, config, p);
      if node.Err? then rec == Err(node.error) else rec.Ok?
  {
    DeriveKeypairExact(c, mnemonic, 1, p);
    DeriveKeypairExact(c, mnemonic, 2, if p < config.authCount then 0 else p - config.authCount);
    assert "m/" + Decimal(1) + "'/" == "m/1'/" && "m/" + Decimal(2) + "'/" == "m/2'/" by { SmallDecimals(); }
  }

  /** A run fails first for the root's node, then for the first subkey whose node is not found, then for
      the attestation, then for PCR 0, 1 and 2; it succeeds when none of these fails. */
  lemma FailureExact(c: Suite, nsm: Nsm, config: Config, mnemonic: Bytes, p: U32)
    requires config.Fits() && p <= config.Total()
    requires forall q: U32 :: q < p ==> NodeFor(c, mnemonic, config, q).Ok?
    ensures var r, root := Failure(c, nsm, config, mnemonic), c.deriveNode(mnemonic, "m/0'/0'");
      && (root.Err? ==> r == Some(FromDerive(root.error)))
      && (root.Ok? && p < config.Total() && NodeFor(c, mnemonic, config, p).Err? ==>
            r == Some(FromDerive(NodeFor(c, mnemonic, config, p).error)))
  {
    DeriveKeypairExact(c, mnemonic, 0, 0);
    RootPath();
    forall q: U32 | q <= p && q < config.Total() {
      RecordFails(c, mnemonic, config, q);
    }
    DeriveFailureSkips(c, mnemonic, config, 0, p);
  }

  lemma NsmFailureExact(c: Suite, nsm: Nsm, config: Config, mnemonic: Bytes)
    requires config.Fits() && c.deriveNode(mnemonic, "m/0'/0'").Ok?
    requires forall q: U32 :: q < config.Total() ==> NodeFor(c, mnemonic, config, q).Ok?
    ensures Derivable(c, mnemonic, config)
    ensures var r := Failure(c, nsm, config, mnemonic);
      var payload :=
        Payload(PayloadOf(c.sha256, DeriveKeypair(c, mnemonic, 0, 0).value, Records(c, mnemonic, config)));
      var quote := nsm.attest(Ascii("pq-keyfork-v1:") + c.sha256(payload), None, None);
      var pcr0, pcr1, pcr2 := nsm.describePcr(0), nsm.describePcr(1), nsm.describePcr(2);
      && (quote.Err? ==> r == Some(FromNsm(quote.error)))
      && (quote.Ok? && pcr0.Err? ==> r == Some(FromNsm(pcr0.error)))
      && (quote.Ok? && pcr0.Ok? && pcr1.Err? ==> r == Some(FromNsm(pcr1.error)))
      && (quote.Ok? && pcr0.Ok? && pcr1.Ok? && pcr2.Err? ==> r == Some(FromNsm(pcr2.error)))
      && (quote.Ok? && pcr0.Ok? && pcr1.Ok? && pcr2.Ok? <==> r.None?)
  {
    DeriveKeypairExact(c, mnemonic, 0, 0);
    RootPath();
    forall q: U32 | q < config.Total() {
      RecordFails(c, mnemonic, config, q);
    }
  }

  // ─── Layout ────────────────────────────────────────────────────────────────

  /** Within one run no two subkeys share a derivation path, and none has the root's. */
  lemma LanesNeverMeet(config: Config, i: nat, j: nat)
    requires i < config.Total() && j < config.Total()
    ensures var p, q := Lane(config, i), Lane(config, j);
      && (SubkeyPath(p.0, p.1) == SubkeyPath(q.0, q.1) <==> i == j)
      && SubkeyPath(p.0, p.1) != SubkeyPath(0, 0)
  {
    var p, q := Lane(config, i), Lane(config, j);
    SubkeyPathInjective(p.0, p.1, q.0, q.1);
    SubkeyPathInjective(p.0, p.1, 0, 0);
  }

  // ─── The signing oracle ────────────────────────────────────────────────────

  /** The oracle answers exactly for the committed indices. */
  lemma OracleAnswersCommittedIndices(
      c: Suite, state: CeremonyState, i: U32, message: Bytes, r: Option<(DualSignature, seq<Digest>)>)
    requires state.Valid(c) && state.MayAnswer(c, i, message, r)
    ensures r.Some? <==> i < |state.subkeys|
    ensures r.Some? ==> FindRecord(state.subkeys, i) == Some(state.subkeys[i])
  {
    FindRecordAt(state.subkeys, 0, i);
    if i < |state.subkeys| {
      assert state.HasKeyPair(c, state.subkeys[i]);
    }
  }

  /** Whatever it answers is signed: this very message, under the secrets belonging to the path of the
      record at that index. */
  lemma OracleSignsTheMessage(
      c: Suite, state: CeremonyState, i: U32, message: Bytes, r: Option<(DualSignature, seq<Digest>)>)
    requires state.Valid(c) && state.MayAnswer(c, i, message, r) && r.Some?
    ensures i < |state.subkeys|
    ensures var rec := state.subkeys[i];
      var path := "m/" + Decimal(rec.account) + "'/" + Decimal(rec.accountIndex) + "'";
      && KeysAt(c, state.mnemonic, path, rec.mlDsaPk, rec.slhDsaPk)
      && SignedAt(c, state.mnemonic, path, message, r.value.0)
  {
    OracleAnswersCommittedIndices(c, state, i, message, r);
    var rec := state.subkeys[i];
    assert state.HasKeyPair(c, rec);
    DeriveKeypairExact(c, state.mnemonic, rec.account, rec.accountIndex);
  }

  /** Every committed subkey is provable against the bundle's root, and its key is never the root's. */
  lemma CommittedSubkeyProvable(c: Suite, state: CeremonyState, i: U32)
    requires state.Valid(c) && i < |state.subkeys|
    ensures var rec, root := state.subkeys[i], Root(c.sha256, state.leaves);
      && |state.leaves| == |state.subkeys|
      && Member(c.sha256, root, i, CommitmentOf(rec), Path(c.sha256, state.leaves, i))
      && Bundle.Claimed(state.bundle).value.root == root
      && SubkeyPath(rec.account, rec.accountIndex) != SubkeyPath(0, 0)
  {
    HonestMember(c.sha256, state.Commits(), i);
    assert state.HasKeyPair(c, state.subkeys[i]);
    SubkeyPathInjective(state.subkeys[i].account, state.subkeys[i].accountIndex, 0, 0);
  }

  /** What it answers verifies: the signature under the recorded keys, the path against the bundle's
      root. */
  lemma OracleServesCommittedSubkeys(
      c: Suite, state: CeremonyState, i: U32, message: Bytes, r: Option<(DualSignature, seq<Digest>)>)
    requires Honest(c) && state.Valid(c) && state.MayAnswer(c, i, message, r) && r.Some?
    ensures i < |state.subkeys|
    ensures var rec := state.subkeys[i];
      && VerifyDual(c, rec.mlDsaPk, rec.slhDsaPk, message, r.value.0).Ok?
      && Member(c.sha256, Bundle.Claimed(state.bundle).value.root, i, CommitmentOf(rec), r.value.1)
  {
    OracleAnswersCommittedIndices(c, state, i, message, r);
    var rec := state.subkeys[i];
    assert state.HasKeyPair(c, rec);
    DerivedSignatureVerifies(c, state.mnemonic, rec.account, rec.accountIndex, message, r.value.0);
    CommittedSubkeyProvable(c, state, i);
  }

  lemma DerivedSignatureVerifies(
      c: Suite, mnemonic: Bytes, account: nat, index: nat, message: Bytes, sig: DualSignature)
    requires Honest(c) && DeriveKeypair(c, mnemonic, account, index).Ok?
    requires SignedBy(c, DeriveKeypair(c, mnemonic, account, index).value, message, sig)
    ensures var kp := DeriveKeypair(c, mnemonic, account, index).value;
      VerifyDual(c, kp.mlPk, kp.slhPk, message, sig).Ok?
  {
    var seed := c.deriveNode(mnemonic, SubkeyPath(account, index)).value;
    SeedPairIsHonest(c, seed);
    SignedVerifies(c, FromSeed(c, seed), message, sig);
  }

  // ─── Honest runs are accepted ──────────────────────────────────────────────

  /** A quote verifier for which this module's documents carry its own PCRs and what it was asked to
      attest. */
  ghost predicate QuotesFaithfully(nsm: Nsm, qv: Bundle.QuoteVerifier, userData: Bytes)
  {
    && nsm.attest(userData, None, None).Ok?
    && nsm.describePcr(0).Ok? && nsm.describePcr(1).Ok? && nsm.describePcr(2).Ok?
    && qv(nsm.attest(userData, None, None).value) ==
       Ok(Bundle.QuoteData(nsm.describePcr(0).value, nsm.describePcr(1).value, nsm.describePcr(2).value, userData))
  }

  /** The bundle of any run verifies exactly when the enclave was not in debug mode. */
  lemma HonestRunAccepted(
      c: Suite, codec: Bundle.Codec, nsm: Nsm, rootCaDer: Bytes, state: CeremonyState, qv: Bundle.QuoteVerifier)
    requires Honest(c) && Bundle.Base64RoundTrips(codec)
    requires state.Valid(c) && Recorded(c, codec, nsm, rootCaDer, state.bundle)
    requires QuotesFaithfully(nsm, qv, UserData(c.sha256, Payload(state.RunPayload())))
    ensures Bundle.Verify(c, codec, state.bundle, qv, None).Ok? <==>
      !(Bundle.AllZero(nsm.describePcr(0).value) && Bundle.AllZero(nsm.describePcr(1).value)
        && Bundle.AllZero(nsm.describePcr(2).value))
  {
    var b := state.bundle;
    HexRoundTrip(nsm.describePcr(0).value);
    HexRoundTrip(nsm.describePcr(1).value);
    HexRoundTrip(nsm.describePcr(2).value);
    DerivedSignatureVerifies(c, state.mnemonic, 0, 0, Payload(state.RunPayload()),
                             DualSignature(HexDecode(b.mlDsaSig).value, HexDecode(b.slhDsaSig).value));
    assert Bundle.Signed(c, b);
  }
}
