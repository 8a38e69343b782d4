/** The three subkey endpoints. JSON text is not modelled: a reply carries the fields it holds. */
module Oracle {
  import opened Wrappers
  import opened Encoding
  import opened Core
  import opened Merkle
  import opened Ceremony

  datatype SubkeyResponse = SubkeyResponse(
    index: U32,
    purposeTag: byte,
    mlDsaPk: HexField,
    slhDsaPk: HexField,
    mlDsaSig: Option<string>,
    slhDsaSig: Option<string>,
    merkleProof: seq<string>)

  /** 200, 400 and 404. */
  datatype Reply = Found(body: SubkeyResponse) | BadRequest | NotFound

  datatype SignRequest = SignRequest(index: U32, messageHex: string)

  function HexAll(digests: seq<Digest>): (r: seq<string>)
    ensures |r| == |digests|
  {
    seq(|digests|, i requires 0 <= i < |digests| => HexEncode(digests[i]))
  }

  function View(rec: SubkeyRecord, path: seq<Digest>): SubkeyResponse
  {
    SubkeyResponse(
      rec.globalIndex, rec.purposeTag, HexEncode(rec.mlDsaPk), HexEncode(rec.slhDsaPk), None, None, HexAll(path))
  }

  /** A missing path is shown as an empty one. */
  function PathOrEmpty(c: Suite, state: CeremonyState, globalIndex: U32): seq<Digest>
  {
    var path := state.PathFor(c, globalIndex);
    if path.Some? then path.value else []
  }

  /** `GET /subkeys` */
  function SubkeysListResponse(c: Suite, state: CeremonyState): (r: seq<SubkeyResponse>)
    ensures |r| == |state.subkeys|
  {
    seq(|state.subkeys|, i requires 0 <= i < |state.subkeys| =>
      View(state.subkeys[i], PathOrEmpty(c, state, state.subkeys[i].globalIndex)))
  }

  /** `GET /subkey/<i>` */
  function SubkeyReply(c: Suite, state: CeremonyState, index: U32): Reply
  {
    var rec := FindRecord(state.subkeys, index);
    if rec.None? then NotFound else Found(View(rec.value, PathOrEmpty(c, state, index)))
  }

  /** `POST /sign`; `None` is a body that does not parse. */
  method SignResponse(c: Suite, state: CeremonyState, req: Option<SignRequest>) returns (reply: Reply)
    ensures SignReply(c, state, req, reply)
    ensures reply == BadRequest <==> req.None? || HexDecode(req.value.messageHex).None?
  {
    if req.None? {
      return BadRequest;
    }
    var message := HexDecode(req.value.messageHex);
    if message.None? {
      return BadRequest;
    }
    var rec := FindRecord(state.subkeys, req.value.index);
    if rec.None? {
      return NotFound;
    }
    var signed := state.SignWithSubkey(c, req.value.index, message.value);
    if signed.None? {
      return NotFound;
    }
    var (sig, path) := signed.value;
    HexRoundTrip(sig.mlDsa);
    HexRoundTrip(sig.slhDsa);
    var view := View(rec.value, path);
    reply := Found(view.(mlDsaSig := Some(HexEncode(sig.mlDsa)), slhDsaSig := Some(HexEncode(sig.slhDsa))));
    assert state.MayAnswer(c, req.value.index, message.value, Some((SignatureIn(reply.body), path)));
  }

  function SignatureIn(body: SubkeyResponse): DualSignature
    requires body.mlDsaSig.Some? && HexDecode(body.mlDsaSig.value).Some?
    requires body.slhDsaSig.Some? && HexDecode(body.slhDsaSig.value).Some?
  {
    DualSignature(HexDecode(body.mlDsaSig.value).value, HexDecode(body.slhDsaSig.value).value)
  }

  predicate CarriesSignature(body: SubkeyResponse)
  {
    && body.mlDsaSig.Some? && HexDecode(body.mlDsaSig.value).Some?
    && body.slhDsaSig.Some? && HexDecode(body.slhDsaSig.value).Some?
  }

  function WithoutSignature(body: SubkeyResponse): SubkeyResponse
  {
    body.(mlDsaSig := None, slhDsaSig := None)
  }

  /** What a signing request may be answered with. */
  ghost predicate SignReply(c: Suite, state: CeremonyState, req: Option<SignRequest>, reply: Reply)
  {
    if req.None? || HexDecode(req.value.messageHex).None? then reply == BadRequest
    else
      var i, message := req.value.index, HexDecode(req.value.messageHex).value;
      match reply
      case BadRequest => false
      case NotFound => state.MayAnswer(c, i, message, None)
      case Found(body) =>
        && CarriesSignature(body) && state.PathFor(c, i).Some?
        && body.mlDsaSig.value == HexEncode(SignatureIn(body).mlDsa)
        && body.slhDsaSig.value == HexEncode(SignatureIn(body).slhDsa)
        && state.MayAnswer(c, i, message, Some((SignatureIn(body), state.PathFor(c, i).value)))
        && Found(WithoutSignature(body)) == SubkeyReply(c, state, i)
  }

  /** The body shows this record and this path, field by field, in lowercase hex. */
  predicate Shows(body: SubkeyResponse, rec: SubkeyRecord, path: seq<Digest>)
  {
    && body.index == rec.globalIndex && body.purposeTag == rec.purposeTag
    && body.mlDsaPk == HexEncode(rec.mlDsaPk) && body.slhDsaPk == HexEncode(rec.slhDsaPk)
    && |body.merkleProof| == |path|
    && forall k :: 0 <= k < |path| ==> body.merkleProof[k] == HexEncode(path[k])
  }

  /** For a run, the list, the single lookup and the signing reply carry the same keys, tag and path
      for every committed index, and there is nothing at any other. */
  lemma EndpointsAgree(c: Suite, state: CeremonyState, i: U32, messageHex: string, reply: Reply)
    requires Honest(c) && state.Valid(c) && HexDecode(messageHex).Some?
    requires SignReply(c, state, Some(SignRequest(i, messageHex)), reply)
    ensures i >= |state.subkeys| ==> SubkeyReply(c, state, i) == NotFound && reply == NotFound
    ensures i < |state.subkeys| ==>
      var path := Path(c.sha256, state.leaves, i);
      && var listed := SubkeysListResponse(c, state)[i];
      && Shows(listed, state.subkeys[i], path) && listed.mlDsaSig.None? && listed.slhDsaSig.None?
      && SubkeyReply(c, state, i) == Found(listed)
      && reply.Found? && reply.body.index == i && Shows(reply.body, state.subkeys[i], path)
      && VerifyDual(c, state.subkeys[i].mlDsaPk, state.subkeys[i].slhDsaPk, HexDecode(messageHex).value,
                    SignatureIn(reply.body)).Ok?
  {
    FindRecordAt(state.subkeys, 0, i);
    var message := HexDecode(messageHex).value;
    if reply.NotFound? {
      OracleAnswersCommittedIndices(c, state, i, message, None);
    } else {
      var answer := Some((SignatureIn(reply.body), state.PathFor(c, i).value));
      OracleAnswersCommittedIndices(c, state, i, message, answer);
      OracleServesCommittedSubkeys(c, state, i, message, answer);
    }
  }
}
