/** The root key bundle and its verification. */
module Bundle {
  import opened Wrappers
  import opened Encoding
  import opened Core

  datatype QuoteData = QuoteData(pcr0: Bytes, pcr1: Bytes, pcr2: Bytes, userData: Bytes)

  datatype ExpectedPcrs = ExpectedPcrs(pcr0: string, pcr1: string, pcr2: string)

  datatype PqRootBundle = PqRootBundle(
    version: string,
    mlDsaPk: HexField,
    slhDsaPk: HexField,
    nsmQuote: string,
    awsRootCaSha256: string,
    expectedPcrs: ExpectedPcrs,
    subkeyMerkleRoot: HexField,
    subkeyCount: U32,
    mlDsaSig: string,
    slhDsaSig: string)

  datatype VerifyReport = VerifyReport(
    pcr0: Bytes,
    pcr1: Bytes,
    pcr2: Bytes,
    userData: Bytes,
    mlDsaPkLen: nat,
    slhDsaPkLen: nat,
    subkeyMerkleRoot: Bytes,
    subkeyCount: nat)

  /** Base64 and the JSON text of a bundle, as arbitrary functions. */
  datatype Codec = Codec(
    base64Encode: Bytes -> string,
    base64Decode: string -> Option<Bytes>,
    bundleJson: PqRootBundle -> Bytes)

  ghost predicate Base64RoundTrips(codec: Codec)
  {
    forall b :: codec.base64Decode(codec.base64Encode(b)) == Some(b)
  }

  /** Parses and authenticates a quote; an arbitrary function. */
  type QuoteVerifier = Bytes -> Result<QuoteData, string>

  /** An optional timestamp verifier with the proof it is to be shown. */
  type TimestampCheck = Option<((Digest, Bytes) -> Result<(), string>, Bytes)>

  datatype Error =
    | HexField(field: string)
    | Base64Field(field: string)
    | QuoteParse(message: string)
    | DebugMode
    | PcrMismatch(index: nat, expected: string, actual: string)
    | BindingMismatch
    | BadSignature(error: Core.Error)

  // ─── The individual checks ─────────────────────────────────────────────────

  predicate AllZero(b: Bytes)
  {
    forall i :: 0 <= i < |b| ==> b[i] == 0
  }

  predicate Debug(q: QuoteData)
  {
    AllZero(q.pcr0) && AllZero(q.pcr1) && AllZero(q.pcr2)
  }

  function CheckPcr(index: nat, expectedHex: string, actual: Bytes): (r: Result<(), Error>)
    ensures r.Ok? <==> HexDecode(expectedHex) == Some(actual)
    ensures r.Err? && !r.error.HexField? ==>
      HexDecode(expectedHex).Some? && r.error == PcrMismatch(index, expectedHex, HexEncode(actual))
  {
    var expected := HexDecode(expectedHex);
    if expected.None? then Err(HexField("expected_pcrs"))
    else if actual != expected.value then Err(PcrMismatch(index, expectedHex, HexEncode(actual)))
    else Ok(())
  }

  function CheckPcrs(expected: ExpectedPcrs, q: QuoteData): (r: Result<(), Error>)
    ensures r.Ok? <==> Pinned(expected, q)
    ensures r.Err? ==>
      || r == CheckPcr(0, expected.pcr0, q.pcr0)
      || (HexDecode(expected.pcr0) == Some(q.pcr0) && r == CheckPcr(1, expected.pcr1, q.pcr1))
      || (HexDecode(expected.pcr0) == Some(q.pcr0) && HexDecode(expected.pcr1) == Some(q.pcr1)
          && r == CheckPcr(2, expected.pcr2, q.pcr2))
    ensures r.Err? ==> r.error.PcrMismatch? || r.error == HexField("expected_pcrs")
  {
    var r0 := CheckPcr(0, expected.pcr0, q.pcr0);
    if r0.Err? then r0
    else
      var r1 := CheckPcr(1, expected.pcr1, q.pcr1);
      if r1.Err? then r1 else CheckPcr(2, expected.pcr2, q.pcr2)
  }

  predicate Pinned(expected: ExpectedPcrs, q: QuoteData)
  {
    && HexDecode(expected.pcr0) == Some(q.pcr0)
    && HexDecode(expected.pcr1) == Some(q.pcr1)
    && HexDecode(expected.pcr2) == Some(q.pcr2)
  }

  function CheckTimestamp(c: Suite, codec: Codec, b: PqRootBundle, ts: TimestampCheck): Result<(), string>
  {
    if ts.None? then Ok(()) else ts.value.0(c.sha256(codec.bundleJson(b)), ts.value.1)
  }

  /** The two keys, the root and the count the bundle claims, when they decode. */
  function Claimed(b: PqRootBundle): (r: Option<PayloadFields>)
    ensures r.Some? ==> r.value.count < U32_LIMIT
    ensures r.Some? <==>
      HexDecode(b.mlDsaPk).Some? && HexDecode(b.slhDsaPk).Some? && HexDecode(b.subkeyMerkleRoot).Some?
  {
    var ml, slh, root := HexDecode(b.mlDsaPk), HexDecode(b.slhDsaPk), HexDecode(b.subkeyMerkleRoot);
    if ml.None? || slh.None? || root.None? then None
    else Some(PayloadFields(ml.value, slh.value, root.value, b.subkeyCount))
  }

  predicate FieldsDecode(codec: Codec, b: PqRootBundle)
  {
    && HexDecode(b.mlDsaPk).Some? && HexDecode(b.slhDsaPk).Some?
    && HexDecode(b.mlDsaSig).Some? && HexDecode(b.slhDsaSig).Some?
    && codec.base64Decode(b.nsmQuote).Some?
  }

  /** Everything up to and including PCR pinning. */
  predicate Attested(c: Suite, codec: Codec, b: PqRootBundle, qv: QuoteVerifier, ts: TimestampCheck)
  {
    && FieldsDecode(codec, b)
    && CheckTimestamp(c, codec, b, ts).Ok?
    && var q := qv(codec.base64Decode(b.nsmQuote).value);
    && q.Ok? && !Debug(q.value) && Pinned(b.expectedPcrs, q.value)
  }

  function Quote(codec: Codec, b: PqRootBundle, qv: QuoteVerifier): QuoteData
    requires codec.base64Decode(b.nsmQuote).Some? && qv(codec.base64Decode(b.nsmQuote).value).Ok?
  {
    qv(codec.base64Decode(b.nsmQuote).value).value
  }

  /** The quote commits to exactly the payload the bundle's own fields spell out. */
  predicate Bound(c: Suite, b: PqRootBundle, q: QuoteData)
  {
    Claimed(b).Some? && q.userData == UserData(c.sha256, Payload(Claimed(b).value))
  }

  predicate Signed(c: Suite, b: PqRootBundle)
  {
    && Claimed(b).Some? && HexDecode(b.mlDsaSig).Some? && HexDecode(b.slhDsaSig).Some?
    && var f := Claimed(b).value;
    VerifyDual(c, f.mlPk, f.slhPk, Payload(f),
               DualSignature(HexDecode(b.mlDsaSig).value, HexDecode(b.slhDsaSig).value)).Ok?
  }

  predicate Accepts(c: Suite, codec: Codec, b: PqRootBundle, qv: QuoteVerifier, ts: TimestampCheck)
  {
    Attested(c, codec, b, qv, ts) && Bound(c, b, Quote(codec, b, qv)) && Signed(c, b)
  }

  // ─── Verification ──────────────────────────────────────────────────────────

  function Verify(c: Suite, codec: Codec, b: PqRootBundle, qv: QuoteVerifier, ts: TimestampCheck)
      : (r: Result<VerifyReport, Error>)
    ensures r.Ok? <==> Accepts(c, codec, b, qv, ts)
    ensures r.Ok? ==>
      var q, f := Quote(codec, b, qv), Claimed(b).value;
      r.value == VerifyReport(q.pcr0, q.pcr1, q.pcr2, q.userData, ML_DSA_PK_LEN, SLH_DSA_PK_LEN, f.root, f.count)
  {
    var mlPk := HexDecode(b.mlDsaPk);
    if mlPk.None? then Err(HexField("ml_dsa_pk")) else
    var slhPk := HexDecode(b.slhDsaPk);
    if slhPk.None? then Err(HexField("slh_dsa_pk")) else
    var mlSig := HexDecode(b.mlDsaSig);
    if mlSig.None? then Err(HexField("ml_dsa_sig")) else
    var slhSig := HexDecode(b.slhDsaSig);
    if slhSig.None? then Err(HexField("slh_dsa_sig")) else
    var quoteBytes := codec.base64Decode(b.nsmQuote);
    if quoteBytes.None? then Err(Base64Field("nsm_quote")) else
    var stamped := CheckTimestamp(c, codec, b, ts);
    if stamped.Err? then Err(QuoteParse(stamped.error)) else
    var quote := qv(quoteBytes.value);
    if quote.Err? then Err(QuoteParse(quote.error)) else
    var q := quote.value;
    if Debug(q) then Err(DebugMode) else
    var pinned := CheckPcrs(b.expectedPcrs, q);
    if pinned.Err? then Err(pinned.error) else
    var root := HexDecode(b.subkeyMerkleRoot);
    if root.None? then Err(HexField("subkey_merkle_root")) else
    var payload := Payload(PayloadFields(mlPk.value, slhPk.value, root.value, b.subkeyCount));
    if q.userData != UserData(c.sha256, payload) then Err(BindingMismatch) else
    var dual := VerifyDual(c, mlPk.value, slhPk.value, payload, DualSignature(mlSig.value, slhSig.value));
    if dual.Err? then Err(BadSignature(dual.error)) else
    Ok(VerifyReport(q.pcr0, q.pcr1, q.pcr2, q.userData, |mlPk.value|, |slhPk.value|, root.value, b.subkeyCount))
  }

  /** A field that does not decode is reported, the first in this order. */
  lemma {:induction false} KeyDecodeErrors(
      c: Suite, codec: Codec, b: PqRootBundle, qv: QuoteVerifier, ts: TimestampCheck)
    ensures var r := Verify(c, codec, b, qv, ts);
      && (r == Err(HexField("ml_dsa_pk")) <==> HexDecode(b.mlDsaPk).None?)
      && (r == Err(HexField("slh_dsa_pk")) <==> HexDecode(b.mlDsaPk).Some? && HexDecode(b.slhDsaPk).None?)
  {
  }

  lemma {:induction false} MlSignatureDecodeErrors(
      c: Suite, codec: Codec, b: PqRootBundle, qv: QuoteVerifier, ts: TimestampCheck)
    ensures var r := Verify(c, codec, b, qv, ts);
      && (r == Err(HexField("ml_dsa_sig")) <==>
          HexDecode(b.mlDsaPk).Some? && HexDecode(b.slhDsaPk).Some? && HexDecode(b.mlDsaSig).None?)
  {
  }

  lemma {:induction false} SlhSignatureDecodeErrors(
      c: Suite, codec: Codec, b: PqRootBundle, qv: QuoteVerifier, ts: TimestampCheck)
    ensures var r := Verify(c, codec, b, qv, ts);
      && (r == Err(HexField("slh_dsa_sig")) <==>
          && HexDecode(b.mlDsaPk).Some? && HexDecode(b.slhDsaPk).Some? && HexDecode(b.mlDsaSig).Some?
          && HexDecode(b.slhDsaSig).None?)
  {
  }

  lemma {:induction false} QuoteDecodeErrors(
      c: Suite, codec: Codec, b: PqRootBundle, qv: QuoteVerifier, ts: TimestampCheck)
    ensures var r := Verify(c, codec, b, qv, ts);
      && (r == Err(Base64Field("nsm_quote")) <==>
          && HexDecode(b.mlDsaPk).Some? && HexDecode(b.slhDsaPk).Some? && HexDecode(b.mlDsaSig).Some?
          && HexDecode(b.slhDsaSig).Some? && codec.base64Decode(b.nsmQuote).None?)
  {
  }

  /** Then the timestamp and the quote, debug mode, and the first PCR that is not pinned. */
  lemma {:induction false} QuoteErrors(c: Suite, codec: Codec, b: PqRootBundle, qv: QuoteVerifier, ts: TimestampCheck)
    ensures var r := Verify(c, codec, b, qv, ts);
      && (r.Err? && r.error.QuoteParse? <==>
          && FieldsDecode(codec, b)
          && (CheckTimestamp(c, codec, b, ts).Err? || qv(codec.base64Decode(b.nsmQuote).value).Err?))
      && (r.Err? && r.error.QuoteParse? ==>
          r.error.message == if CheckTimestamp(c, codec, b, ts).Err? then CheckTimestamp(c, codec, b, ts).error
                             else qv(codec.base64Decode(b.nsmQuote).value).error)
      && (r == Err(DebugMode) <==>
          && FieldsDecode(codec, b) && CheckTimestamp(c, codec, b, ts).Ok?
          && qv(codec.base64Decode(b.nsmQuote).value).Ok? && Debug(Quote(codec, b, qv)))
      && (r.Err? && (r.error.PcrMismatch? || r.error == HexField("expected_pcrs")) <==>
          && FieldsDecode(codec, b) && CheckTimestamp(c, codec, b, ts).Ok?
          && qv(codec.base64Decode(b.nsmQuote).value).Ok?
          && !Debug(Quote(codec, b, qv)) && !Pinned(b.expectedPcrs, Quote(codec, b, qv)))
      && (r.Err? && (r.error.PcrMismatch? || r.error == HexField("expected_pcrs")) ==>
          CheckPcrs(b.expectedPcrs, Quote(codec, b, qv)) == Err(r.error))
  {
  }

  /** Last the Merkle root, the binding and the signatures. */
  lemma {:induction false} BindingErrors(c: Suite, codec: Codec, b: PqRootBundle, qv: QuoteVerifier, ts: TimestampCheck)
    ensures var r := Verify(c, codec, b, qv, ts);
      && (r == Err(HexField("subkey_merkle_root")) <==>
          Attested(c, codec, b, qv, ts) && HexDecode(b.subkeyMerkleRoot).None?)
  {
  }

  lemma {:induction false} CommitmentErrors(
      c: Suite, codec: Codec, b: PqRootBundle, qv: QuoteVerifier, ts: TimestampCheck)
    ensures var r := Verify(c, codec, b, qv, ts);
      && (r == Err(BindingMismatch) <==>
          Attested(c, codec, b, qv, ts) && Claimed(b).Some? && !Bound(c, b, Quote(codec, b, qv)))
  {
  }

  lemma {:induction false} SignatureErrors(
      c: Suite, codec: Codec, b: PqRootBundle, qv: QuoteVerifier, ts: TimestampCheck)
    ensures Attested(c, codec, b, qv, ts) && Bound(c, b, Quote(codec, b, qv)) && !Signed(c, b) ==>
      Verify(c, codec, b, qv, ts).Err? && Verify(c, codec, b, qv, ts).error.BadSignature?
  {
  }

  lemma {:induction false} SignatureErrorIs(
      c: Suite, codec: Codec, b: PqRootBundle, qv: QuoteVerifier, ts: TimestampCheck)
    requires Verify(c, codec, b, qv, ts).Err? && Verify(c, codec, b, qv, ts).error.BadSignature?
    ensures Attested(c, codec, b, qv, ts) && Bound(c, b, Quote(codec, b, qv)) && !Signed(c, b)
    ensures HexDecode(b.mlDsaSig).Some? && HexDecode(b.slhDsaSig).Some?
    ensures var f := Claimed(b).value;
      VerifyDual(c, f.mlPk, f.slhPk, Payload(f),
                 DualSignature(HexDecode(b.mlDsaSig).value, HexDecode(b.slhDsaSig).value))
      == Err(Verify(c, codec, b, qv, ts).error.error)
  {
  }

  /** Acceptance on the schemes' own functions and in bytes: what decodes, what is hashed and signed, and
      who is asked. */
  lemma VerifyExact(c: Suite, codec: Codec, b: PqRootBundle, qv: QuoteVerifier, ts: TimestampCheck)
    ensures Verify(c, codec, b, qv, ts).Ok? <==>
      && HexDecode(b.mlDsaPk).Some? && HexDecode(b.slhDsaPk).Some? && HexDecode(b.subkeyMerkleRoot).Some?
      && HexDecode(b.mlDsaSig).Some? && HexDecode(b.slhDsaSig).Some? && codec.base64Decode(b.nsmQuote).Some?
      && (ts.Some? ==> ts.value.0(c.sha256(codec.bundleJson(b)), ts.value.1).Ok?)
      && qv(codec.base64Decode(b.nsmQuote).value).Ok?
      && var q := qv(codec.base64Decode(b.nsmQuote).value).value;
      && (exists i :: 0 <= i < |q.pcr0 + q.pcr1 + q.pcr2| && (q.pcr0 + q.pcr1 + q.pcr2)[i] != 0)
      && HexDecode(b.expectedPcrs.pcr0) == Some(q.pcr0) && HexDecode(b.expectedPcrs.pcr1) == Some(q.pcr1)
      && HexDecode(b.expectedPcrs.pcr2) == Some(q.pcr2)
      && var mlPk, slhPk, root :=
           HexDecode(b.mlDsaPk).value, HexDecode(b.slhDsaPk).value, HexDecode(b.subkeyMerkleRoot).value;
      var payload :=
        BE32(|mlPk|) + mlPk + BE32(|slhPk|) + slhPk + BE32(|root|) + root + BE32(b.subkeyCount);
      && q.userData == Ascii("pq-keyfork-v1:") + c.sha256(payload)
      && |mlPk| == 1952 && c.mlDecodesKey(mlPk) && |HexDecode(b.mlDsaSig).value| == 3309
      && c.mlVerify(mlPk, payload, HexDecode(b.mlDsaSig).value)
      && |slhPk| == 32 && c.slhDecodesKey(slhPk) && |HexDecode(b.slhDsaSig).value| == 17088
      && c.slhVerify(slhPk, payload, HexDecode(b.slhDsaSig).value)
  {
    if FieldsDecode(codec, b) && qv(codec.base64Decode(b.nsmQuote).value).Ok? {
      DebugExact(qv(codec.base64Decode(b.nsmQuote).value).value);
    }
    if Claimed(b).Some? {
      PayloadBytes(Claimed(b).value);
      UserDataBytes(c.sha256, Claimed(b).value);
    }
  }

  lemma DebugExact(q: QuoteData)
    ensures var pcrs := q.pcr0 + q.pcr1 + q.pcr2; Debug(q) <==> forall i :: 0 <= i < |pcrs| ==> pcrs[i] == 0
  {
    var pcrs := q.pcr0 + q.pcr1 + q.pcr2;
    assert q.pcr0 == pcrs[..|q.pcr0|];
    assert q.pcr1 == pcrs[|q.pcr0|..|q.pcr0| + |q.pcr1|];
    assert q.pcr2 == pcrs[|q.pcr0| + |q.pcr1|..];
  }

  /** Two accepted bundles whose quotes carry the same commitment claim the same keys, root and
      count, or their two payloads collide. */
  lemma CommitmentDeterminesClaim(
      c: Suite, codec: Codec, b: PqRootBundle, qv: QuoteVerifier, ts: TimestampCheck,
      b': PqRootBundle, qv': QuoteVerifier, ts': TimestampCheck)
    requires Verify(c, codec, b, qv, ts).Ok? && Verify(c, codec, b', qv', ts').Ok?
    requires Quote(codec, b, qv).userData == Quote(codec, b', qv').userData
    ensures Claimed(b) == Claimed(b') ||
      var x, y := Payload(Claimed(b).value), Payload(Claimed(b').value); x != y && c.sha256(x) == c.sha256(y)
  {
    UserDataDeterminesHash(c.sha256, Payload(Claimed(b).value), Payload(Claimed(b').value));
    ParseOfPayload(Claimed(b).value);
    ParseOfPayload(Claimed(b').value);
  }
}
