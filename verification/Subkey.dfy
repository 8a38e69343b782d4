/** Root-issued subkey certificates. */
module Subkey {
  import opened Wrappers
  import opened Encoding
  import opened Core

  datatype Purpose = Auth | Encryption

  function Tag(p: Purpose): (t: byte)
    ensures t == 1 <==> p == Auth
    ensures t == 2 <==> p == Encryption
  {
    match p
    case Auth => 1
    case Encryption => 2
  }

  datatype Meta = Meta(serial: U64, purpose: Purpose, notBefore: U64, notAfter: U64)

  datatype PublicKeys = PublicKeys(mlDsaPk: Bytes, slhDsaPk: Bytes, purpose: Purpose, serial: U64)

  datatype Cert = Cert(
    version: string,
    rootBinding: string,
    mlDsaPk: HexField,
    slhDsaPk: HexField,
    serial: U64,
    purpose: Purpose,
    notBefore: U64,
    notAfter: U64,
    mlDsaSig: string,
    slhDsaSig: string)

  datatype Error =
    | HexFieldError(field: string)
    | RootBindingMismatch
    | BadSignature(error: Core.Error)
    | NotYetValid(notBefore: U64, asOf: U64)
    | Expired(notAfter: U64, asOf: U64)

  const CERT_VERSION: string := "1"

  function SigningDomain(): (d: Bytes)
    ensures |d| == 17
  {
    Ascii("pq-subkey-cert-v1")
  }

  function VersionBytes(): Bytes { Ascii("1") }

  function RootBinding(h: Hash, rootMl: Field, rootSlh: Field): Digest
  {
    h(RootPayload(rootMl, rootSlh))
  }

  // ─── The signed message ────────────────────────────────────────────────────

  datatype CertFields = CertFields(binding: Digest, mlPk: Field, slhPk: Field, meta: Meta)

  function Scalars(m: Meta): (r: Bytes)
    ensures |r| == 25
  {
    BE64(m.serial) + [Tag(m.purpose)] + BE64(m.notBefore) + BE64(m.notAfter)
  }

  function CertMessage(f: CertFields): Bytes
  {
    Lps([SigningDomain(), VersionBytes(), f.binding, f.mlPk, f.slhPk]) + Scalars(f.meta)
  }

  method AppendField(out: Bytes, bytes: Field, ghost before: seq<Field>) returns (r: Bytes)
    requires out == Lps(before)
    ensures r == Lps(before + [bytes])
  {
    r := out + BE32(|bytes|);
    r := r + bytes;
    LpsSnoc(before, bytes);
  }

  /** The fixed-width tail: serial, purpose tag and the two validity bounds. */
  method AppendScalars(out: Bytes, meta: Meta) returns (r: Bytes)
    ensures r == out + Scalars(meta)
  {
    r := out + BE64(meta.serial);
    r := r + [Tag(meta.purpose)];
    r := r + BE64(meta.notBefore);
    r := r + BE64(meta.notAfter);
  }

  method SigningBytes(binding: Digest, mlPk: Field, slhPk: Field, meta: Meta) returns (v: Bytes)
    ensures v == CertMessage(CertFields(binding, mlPk, slhPk, meta))
    ensures v == MessageBytes(CertFields(binding, mlPk, slhPk, meta))
  {
    var domain, version := SigningDomain(), VersionBytes();
    ghost var done := [] + [domain];
    v := AppendField([], domain, []);
    v := AppendField(v, version, done);
    done := done + [version];
    v := AppendField(v, binding, done);
    done := done + [binding];
    v := AppendField(v, mlPk, done);
    done := done + [mlPk];
    v := AppendField(v, slhPk, done);
    assert done + [slhPk] == [domain, version, binding, mlPk, slhPk];
    v := AppendScalars(v, meta);
    CertMessageBytes(CertFields(binding, mlPk, slhPk, meta));
  }

  /** The same byte for byte: label, version, binding and keys with their lengths, then serial, tag and
      bounds. */
  ghost function MessageBytes(f: CertFields): Bytes
  {
    (BE32(17) + Ascii("pq-subkey-cert-v1") + BE32(1) + Ascii("1") + BE32(32) + f.binding)
    + (BE32(|f.mlPk|) + f.mlPk + BE32(|f.slhPk|) + f.slhPk)
    + (BE64(f.meta.serial) + [if f.meta.purpose.Auth? then 1 else 2]
       + BE64(f.meta.notBefore) + BE64(f.meta.notAfter))
  }

  lemma CertMessageBytes(f: CertFields)
    ensures CertMessage(f) == MessageBytes(f)
  {
    LpsThree(SigningDomain(), VersionBytes(), f.binding);
    LpsTwoBytes(f.mlPk, f.slhPk);
    LpsAppend([SigningDomain(), VersionBytes(), f.binding], [f.mlPk, f.slhPk]);
    assert [SigningDomain(), VersionBytes(), f.binding] + [f.mlPk, f.slhPk] ==
      [SigningDomain(), VersionBytes(), f.binding, f.mlPk, f.slhPk];
  }

  lemma RootBindingBytes(h: Hash, ml: Field, slh: Field)
    ensures RootBinding(h, ml, slh) == h(BE32(|ml|) + ml + BE32(|slh|) + slh)
  {
    LpsTwoBytes(ml, slh);
  }

  /** Everything the message binds can be read back from it, so distinct fields never share one. */
  function ParseScalars(v: Bytes): Option<Meta>
    requires |v| == 25
  {
    var serial, notBefore, notAfter := FromBE64(v[..8]), FromBE64(v[9..17]), FromBE64(v[17..]);
    if v[8] == 1 then Some(Meta(serial, Auth, notBefore, notAfter))
    else if v[8] == 2 then Some(Meta(serial, Encryption, notBefore, notAfter))
    else None
  }

  function ParseCertMessage(v: Bytes): Option<CertFields>
  {
    var s := Split(v, 5);
    if s.None? || |s.value.0| != 5 || |s.value.1| != 25 then None
    else
      var meta := ParseScalars(s.value.1);
      var fields := s.value.0;
      if fields[0] != SigningDomain() || fields[1] != VersionBytes() || |fields[2]| != 32 || meta.None? then None
      else Some(CertFields(fields[2], fields[3], fields[4], meta.value))
  }

  lemma ParseOfScalars(m: Meta)
    ensures ParseScalars(Scalars(m)) == Some(m)
  {
    var v := Scalars(m);
    assert v[..8] == BE64(m.serial) && v[8] == Tag(m.purpose);
    assert v[9..17] == BE64(m.notBefore) && v[17..] == BE64(m.notAfter);
    BE64RoundTrip(m.serial);
    BE64RoundTrip(m.notBefore);
    BE64RoundTrip(m.notAfter);
  }

  lemma ParseOfCertMessage(f: CertFields)
    ensures ParseCertMessage(CertMessage(f)) == Some(f)
  {
    SplitOfLps([SigningDomain(), VersionBytes(), f.binding, f.mlPk, f.slhPk], Scalars(f.meta));
    ParseOfScalars(f.meta);
  }

  lemma ScalarsOfParse(v: Bytes)
    requires |v| == 25
    ensures ParseScalars(v).Some? ==> Scalars(ParseScalars(v).value) == v
  {
    BE64Onto(v[..8]);
    BE64Onto(v[9..17]);
    BE64Onto(v[17..]);
    assert v == v[..8] + [v[8]] + v[9..17] + v[17..];
  }

  /** The decoder accepts nothing but certificate messages. */
  lemma CertMessageOfParse(v: Bytes)
    ensures var f := ParseCertMessage(v); f.Some? ==> CertMessage(f.value) == v
  {
    SplitExact(v, 5);
    if ParseCertMessage(v).Some? {
      var f, s := ParseCertMessage(v).value, Split(v, 5).value;
      ScalarsOfParse(s.1);
      assert s.0 == [SigningDomain(), VersionBytes(), f.binding, f.mlPk, f.slhPk];
    }
  }

  /** No certificate message is any bundle payload: after three fields a payload has four bytes left,
      a certificate at least thirty-three. */
  lemma CertMessageIsNoPayload(f: CertFields, p: PayloadFields)
    requires p.count < U32_LIMIT
    ensures CertMessage(f) != Payload(p)
  {
    var head, keys := [SigningDomain(), VersionBytes(), f.binding], [f.mlPk, f.slhPk];
    var tail := Lps(keys) + Scalars(f.meta);
    LpsAppend(head, keys);
    assert head + keys == [SigningDomain(), VersionBytes(), f.binding, f.mlPk, f.slhPk];
    assert CertMessage(f) == Lps(head) + tail;
    SplitOfLps(head, tail);
    SplitOfLps([p.mlPk, p.slhPk, p.root], BE32(p.count));
  }

  // ─── Issue and verify ──────────────────────────────────────────────────────

  method Issue(c: Suite, root: KeyPair, subMl: Field, subSlh: Field, meta: Meta) returns (cert: Cert)
    ensures IssuedBy(c, root, subMl, subSlh, meta, cert)
    ensures cert.version == "1" && (cert.serial, cert.purpose) == (meta.serial, meta.purpose)
    ensures (cert.notBefore, cert.notAfter) == (meta.notBefore, meta.notAfter)
    ensures cert.mlDsaPk == HexEncode(subMl) && cert.slhDsaPk == HexEncode(subSlh)
    ensures cert.rootBinding == HexEncode(c.sha256(BE32(1952) + root.mlPk + BE32(32) + root.slhPk))
    ensures var msg := MessageBytes(CertFields(
                         c.sha256(BE32(1952) + root.mlPk + BE32(32) + root.slhPk), subMl, subSlh, meta));
      && (exists rnd :: cert.mlDsaSig == HexEncode(c.mlSign(root.mlSk, msg, rnd)))
      && (exists rnd :: cert.slhDsaSig == HexEncode(c.slhSign(root.slhSk, msg, rnd)))
  {
    var binding := RootBinding(c.sha256, root.mlPk, root.slhPk);
    var msg := SigningBytes(binding, subMl, subSlh, meta);
    var sig := SignPayload(c, root, msg);
    CertMessageBytes(CertFields(binding, subMl, subSlh, meta));
    RootBindingBytes(c.sha256, root.mlPk, root.slhPk);
    HexRoundTrip(subMl);
    HexRoundTrip(subSlh);
    HexRoundTrip(binding);
    HexRoundTrip(sig.mlDsa);
    HexRoundTrip(sig.slhDsa);
    cert := Cert(CERT_VERSION, HexEncode(binding), HexEncode(subMl), HexEncode(subSlh),
                 meta.serial, meta.purpose, meta.notBefore, meta.notAfter,
                 HexEncode(sig.mlDsa), HexEncode(sig.slhDsa));
  }

  /** A certificate the root made for these keys and this metadata. */
  ghost predicate IssuedBy(c: Suite, root: KeyPair, subMl: Field, subSlh: Field, meta: Meta, cert: Cert)
  {
    var binding := RootBinding(c.sha256, root.mlPk, root.slhPk);
    && HexDecode(cert.rootBinding) == Some(binding)
    && HexDecode(cert.mlDsaPk) == Some(subMl) && HexDecode(cert.slhDsaPk) == Some(subSlh)
    && MetaOf(cert) == meta
    && HexDecode(cert.mlDsaSig).Some? && HexDecode(cert.slhDsaSig).Some?
    && SignedBy(c, root, CertMessage(CertFields(binding, subMl, subSlh, meta)),
                DualSignature(HexDecode(cert.mlDsaSig).value, HexDecode(cert.slhDsaSig).value))
  }

  function MetaOf(cert: Cert): Meta
  {
    Meta(cert.serial, cert.purpose, cert.notBefore, cert.notAfter)
  }

  /** Half-open, zero meaning unbounded on that side. */
  predicate InWindow(m: Meta, asOf: Option<U64>)
  {
    asOf.Some? ==>
      && (m.notBefore == 0 || m.notBefore <= asOf.value)
      && (m.notAfter == 0 || asOf.value < m.notAfter)
  }

  /** The root's signature covers the certificate as read. */
  predicate Authentic(c: Suite, cert: Cert, rootMl: Field, rootSlh: Field)
  {
    var binding := RootBinding(c.sha256, rootMl, rootSlh);
    var ml, slh := HexDecode(cert.mlDsaPk), HexDecode(cert.slhDsaPk);
    var mlSig, slhSig := HexDecode(cert.mlDsaSig), HexDecode(cert.slhDsaSig);
    && ml.Some? && slh.Some? && mlSig.Some? && slhSig.Some?
    && HexDecode(cert.rootBinding) == Some(binding)
    && VerifyDual(c, rootMl, rootSlh, CertMessage(CertFields(binding, ml.value, slh.value, MetaOf(cert))),
                  DualSignature(mlSig.value, slhSig.value)).Ok?
  }

  function Verify(c: Suite, cert: Cert, rootMl: Field, rootSlh: Field, asOf: Option<U64>)
      : (r: Result<PublicKeys, Error>)
    ensures r.Ok? <==> Authentic(c, cert, rootMl, rootSlh) && InWindow(MetaOf(cert), asOf)
    ensures r.Ok? ==>
      r.value == PublicKeys(HexDecode(cert.mlDsaPk).value, HexDecode(cert.slhDsaPk).value, cert.purpose, cert.serial)
  {
    var subMl := HexDecode(cert.mlDsaPk);
    if subMl.None? then Err(HexFieldError("ml_dsa_pk")) else
    var subSlh := HexDecode(cert.slhDsaPk);
    if subSlh.None? then Err(HexFieldError("slh_dsa_pk")) else
    var certBinding := HexDecode(cert.rootBinding);
    if certBinding.None? then Err(HexFieldError("root_binding")) else
    var mlSig := HexDecode(cert.mlDsaSig);
    if mlSig.None? then Err(HexFieldError("ml_dsa_sig")) else
    var slhSig := HexDecode(cert.slhDsaSig);
    if slhSig.None? then Err(HexFieldError("slh_dsa_sig")) else
    var expected := RootBinding(c.sha256, rootMl, rootSlh);
    if certBinding.value != expected then Err(RootBindingMismatch) else
    var msg := CertMessage(CertFields(expected, subMl.value, subSlh.value, MetaOf(cert)));
    var dual := VerifyDual(c, rootMl, rootSlh, msg, DualSignature(mlSig.value, slhSig.value));
    if dual.Err? then Err(BadSignature(dual.error))
    else if asOf.Some? && cert.notBefore != 0 && asOf.value < cert.notBefore then
      Err(NotYetValid(cert.notBefore, asOf.value))
    else if asOf.Some? && cert.notAfter != 0 && asOf.value >= cert.notAfter then
      Err(Expired(cert.notAfter, asOf.value))
    else Ok(PublicKeys(subMl.value, subSlh.value, cert.purpose, cert.serial))
  }

  /** A field that does not decode is reported, the first in this order. */
  lemma DecodeErrors(c: Suite, cert: Cert, rootMl: Field, rootSlh: Field, asOf: Option<U64>)
    ensures var r := Verify(c, cert, rootMl, rootSlh, asOf);
      && (r == Err(HexFieldError("ml_dsa_pk")) <==> HexDecode(cert.mlDsaPk).None?)
      && (r == Err(HexFieldError("slh_dsa_pk")) <==> HexDecode(cert.mlDsaPk).Some? && HexDecode(cert.slhDsaPk).None?)
      && (r == Err(HexFieldError("root_binding")) <==>
          HexDecode(cert.mlDsaPk).Some? && HexDecode(cert.slhDsaPk).Some? && HexDecode(cert.rootBinding).None?)
      && (r == Err(HexFieldError("ml_dsa_sig")) <==>
          && HexDecode(cert.mlDsaPk).Some? && HexDecode(cert.slhDsaPk).Some? && HexDecode(cert.rootBinding).Some?
          && HexDecode(cert.mlDsaSig).None?)
      && (r == Err(HexFieldError("slh_dsa_sig")) <==>
          && HexDecode(cert.mlDsaPk).Some? && HexDecode(cert.slhDsaPk).Some? && HexDecode(cert.rootBinding).Some?
          && HexDecode(cert.mlDsaSig).Some? && HexDecode(cert.slhDsaSig).None?)
  {
  }

  /** Then another root's binding, the signatures, and the window. */
  lemma CheckErrors(c: Suite, cert: Cert, rootMl: Field, rootSlh: Field, asOf: Option<U64>)
    ensures var r := Verify(c, cert, rootMl, rootSlh, asOf);
      && (r == Err(RootBindingMismatch) <==>
          && HexDecode(cert.mlDsaPk).Some? && HexDecode(cert.slhDsaPk).Some? && HexDecode(cert.mlDsaSig).Some?
          && HexDecode(cert.slhDsaSig).Some? && HexDecode(cert.rootBinding).Some?
          && HexDecode(cert.rootBinding).value != RootBinding(c.sha256, rootMl, rootSlh))
      && (r.Err? && r.error.BadSignature? ==>
          && FieldsOf(cert).Some? && HexDecode(cert.mlDsaSig).Some? && HexDecode(cert.slhDsaSig).Some?
          && HexDecode(cert.rootBinding) == Some(RootBinding(c.sha256, rootMl, rootSlh))
          && VerifyDual(c, rootMl, rootSlh, CertMessage(FieldsOf(cert).value), SignatureOf(cert)) == Err(r.error.error))
      && (asOf.Some? ==> (r == Err(NotYetValid(cert.notBefore, asOf.value)) <==>
          Authentic(c, cert, rootMl, rootSlh) && asOf.value < cert.notBefore))
      && (asOf.Some? ==> (r == Err(Expired(cert.notAfter, asOf.value)) <==>
          && Authentic(c, cert, rootMl, rootSlh)
          && cert.notBefore <= asOf.value && 0 < cert.notAfter <= asOf.value))
      && (r.Err? && (r.error.NotYetValid? || r.error.Expired?) ==>
          && Authentic(c, cert, rootMl, rootSlh) && asOf.Some?
          && r.error == if asOf.value < cert.notBefore then NotYetValid(cert.notBefore, asOf.value)
                        else Expired(cert.notAfter, asOf.value))
  {
  }

  /** Acceptance on the schemes' own functions and in bytes. */
  lemma VerifyExact(c: Suite, cert: Cert, rootMl: Field, rootSlh: Field, asOf: Option<U64>, keys: PublicKeys)
    ensures Verify(c, cert, rootMl, rootSlh, asOf) == Ok(keys) <==>
      && HexDecode(cert.mlDsaPk) == Some(keys.mlDsaPk) && HexDecode(cert.slhDsaPk) == Some(keys.slhDsaPk)
      && (keys.purpose, keys.serial) == (cert.purpose, cert.serial)
      && HexDecode(cert.mlDsaSig).Some? && HexDecode(cert.slhDsaSig).Some?
      && var binding := c.sha256(BE32(|rootMl|) + rootMl + BE32(|rootSlh|) + rootSlh);
      && HexDecode(cert.rootBinding) == Some(binding)
      && var msg := MessageBytes(CertFields(binding, keys.mlDsaPk, keys.slhDsaPk,
                                            Meta(cert.serial, cert.purpose, cert.notBefore, cert.notAfter)));
      && |rootMl| == 1952 && c.mlDecodesKey(rootMl) && |HexDecode(cert.mlDsaSig).value| == 3309
      && c.mlVerify(rootMl, msg, HexDecode(cert.mlDsaSig).value)
      && |rootSlh| == 32 && c.slhDecodesKey(rootSlh) && |HexDecode(cert.slhDsaSig).value| == 17088
      && c.slhVerify(rootSlh, msg, HexDecode(cert.slhDsaSig).value)
      && (asOf.Some? ==>
            && (cert.notBefore == 0 || cert.notBefore <= asOf.value)
            && (cert.notAfter == 0 || asOf.value < cert.notAfter))
  {
    RootBindingBytes(c.sha256, rootMl, rootSlh);
    if HexDecode(cert.mlDsaPk).Some? && HexDecode(cert.slhDsaPk).Some? {
      CertMessageBytes(CertFields(RootBinding(c.sha256, rootMl, rootSlh),
                                  HexDecode(cert.mlDsaPk).value, HexDecode(cert.slhDsaPk).value, MetaOf(cert)));
    }
  }

  /** What any honest root pair issues, it verifies: exactly inside the window, and with exactly the
      issued keys. */
  lemma IssueVerify(
      c: Suite, root: KeyPair, subMl: Field, subSlh: Field, meta: Meta, cert: Cert, asOf: Option<U64>)
    requires HonestPair(c, root) && IssuedBy(c, root, subMl, subSlh, meta, cert)
    ensures var r := Verify(c, cert, root.mlPk, root.slhPk, asOf);
      && (r.Ok? <==> InWindow(meta, asOf))
      && (r.Ok? ==> r.value == PublicKeys(subMl, subSlh, meta.purpose, meta.serial))
  {
    var binding := RootBinding(c.sha256, root.mlPk, root.slhPk);
    SignedVerifies(c, root, CertMessage(CertFields(binding, subMl, subSlh, meta)),
                   DualSignature(HexDecode(cert.mlDsaSig).value, HexDecode(cert.slhDsaSig).value));
  }

  /** In particular a root derived from a seed, such as the ceremony's. */
  lemma IssueVerifyFromSeed(
      c: Suite, seed: Digest, subMl: Field, subSlh: Field, meta: Meta, cert: Cert, asOf: Option<U64>)
    requires Honest(c) && IssuedBy(c, FromSeed(c, seed), subMl, subSlh, meta, cert)
    ensures var r := Verify(c, cert, FromSeed(c, seed).mlPk, FromSeed(c, seed).slhPk, asOf);
      && (r.Ok? <==> InWindow(meta, asOf))
      && (r.Ok? ==> r.value == PublicKeys(subMl, subSlh, meta.purpose, meta.serial))
  {
    SeedPairIsHonest(c, seed);
    IssueVerify(c, FromSeed(c, seed), subMl, subSlh, meta, cert, asOf);
  }

  /** One certificate, one root: accepted under two pairs of root keys, the pairs are equal or their
      root-only payloads collide. */
  lemma CertBindsOneRoot(
      c: Suite, cert: Cert, ml: Field, slh: Field, asOf: Option<U64>, ml': Field, slh': Field, asOf': Option<U64>)
    requires Verify(c, cert, ml, slh, asOf).Ok? && Verify(c, cert, ml', slh', asOf').Ok?
    ensures (ml == ml' && slh == slh') ||
      (RootPayload(ml, slh) != RootPayload(ml', slh') &&
       c.sha256(RootPayload(ml, slh)) == c.sha256(RootPayload(ml', slh')))
  {
    RootPayloadInjective(ml, slh, ml', slh');
  }

  lemma RootPayloadInjective(ml: Field, slh: Field, ml': Field, slh': Field)
    ensures RootPayload(ml, slh) == RootPayload(ml', slh') <==> ml == ml' && slh == slh'
  {
    SplitOfLps([ml, slh], []);
    SplitOfLps([ml', slh'], []);
    assert Lps([ml, slh]) + [] == Lps([ml, slh]) && Lps([ml', slh']) + [] == Lps([ml', slh']);
    assert [ml, slh] == [ml', slh'] ==> [ml, slh][0] == [ml', slh'][0] && [ml, slh][1] == [ml', slh'][1];
  }

  // ─── What the root's signature covers ──────────────────────────────────────

  /** The fields a certificate binds, when they decode. */
  function FieldsOf(cert: Cert): (r: Option<CertFields>)
    ensures r.Some? <==>
      && HexDecode(cert.rootBinding).Some? && |HexDecode(cert.rootBinding).value| == 32
      && HexDecode(cert.mlDsaPk).Some? && HexDecode(cert.slhDsaPk).Some?
  {
    var binding, ml, slh := HexDecode(cert.rootBinding), HexDecode(cert.mlDsaPk), HexDecode(cert.slhDsaPk);
    if binding.None? || |binding.value| != 32 || ml.None? || slh.None? then None
    else Some(CertFields(binding.value, ml.value, slh.value, MetaOf(cert)))
  }

  /** Equal in everything signed: binding and keys up to the letter case of their hex, and all scalars. */
  predicate SameSignedFields(x: Cert, y: Cert)
  {
    && LowerHex(x.rootBinding) == LowerHex(y.rootBinding)
    && LowerHex(x.mlDsaPk) == LowerHex(y.mlDsaPk) && LowerHex(x.slhDsaPk) == LowerHex(y.slhDsaPk)
    && MetaOf(x) == MetaOf(y)
  }

  /** Two certificates share a signing message exactly when they agree in the signed fields: neither the
      version nor the letter case of the hex is covered, and everything else is. */
  lemma SigningMessageExact(x: Cert, y: Cert)
    requires FieldsOf(x).Some? && FieldsOf(y).Some?
    ensures CertMessage(FieldsOf(x).value) == CertMessage(FieldsOf(y).value) <==> SameSignedFields(x, y)
  {
    ParseOfCertMessage(FieldsOf(x).value);
    ParseOfCertMessage(FieldsOf(y).value);
    HexSameBytes(x.rootBinding, y.rootBinding);
    HexSameBytes(x.mlDsaPk, y.mlDsaPk);
    HexSameBytes(x.slhDsaPk, y.slhDsaPk);
  }

  /** So an accepted certificate stays accepted, with the same result, under any change of version text
      and of letter case; these are changes nobody signed. */
  lemma VerifyIgnoresVersionAndCase(
      c: Suite, x: Cert, y: Cert, rootMl: Field, rootSlh: Field, asOf: Option<U64>)
    requires FieldsOf(x).Some? && FieldsOf(y).Some? && SameSignedFields(x, y)
    requires HexDecode(x.mlDsaSig).Some? && HexDecode(y.mlDsaSig).Some? && LowerHex(x.mlDsaSig) == LowerHex(y.mlDsaSig)
    requires HexDecode(x.slhDsaSig).Some? && HexDecode(y.slhDsaSig).Some?
    requires LowerHex(x.slhDsaSig) == LowerHex(y.slhDsaSig)
    ensures Verify(c, x, rootMl, rootSlh, asOf) == Verify(c, y, rootMl, rootSlh, asOf)
  {
    HexSameBytes(x.rootBinding, y.rootBinding);
    HexSameBytes(x.mlDsaPk, y.mlDsaPk);
    HexSameBytes(x.slhDsaPk, y.slhDsaPk);
    HexSameBytes(x.mlDsaSig, y.mlDsaSig);
    HexSameBytes(x.slhDsaSig, y.slhDsaSig);
  }

  /** Anything else is covered: under one root and one signature, an accepted certificate whose signed
      fields were changed is a second message the same signature verifies for. */
  lemma ChangedFieldsNeedSecondMessage(
      c: Suite, x: Cert, y: Cert, rootMl: Field, rootSlh: Field, asOf: Option<U64>, asOf': Option<U64>)
    requires Verify(c, x, rootMl, rootSlh, asOf).Ok? && Verify(c, y, rootMl, rootSlh, asOf').Ok?
    requires !SameSignedFields(x, y)
    ensures FieldsOf(x).Some? && FieldsOf(y).Some?
    ensures CertMessage(FieldsOf(x).value) != CertMessage(FieldsOf(y).value)
    ensures VerifyDual(c, rootMl, rootSlh, CertMessage(FieldsOf(x).value), SignatureOf(x)).Ok?
    ensures VerifyDual(c, rootMl, rootSlh, CertMessage(FieldsOf(y).value), SignatureOf(y)).Ok?
  {
    SigningMessageExact(x, y);
  }

  function SignatureOf(cert: Cert): DualSignature
    requires HexDecode(cert.mlDsaSig).Some? && HexDecode(cert.slhDsaSig).Some?
  {
    DualSignature(HexDecode(cert.mlDsaSig).value, HexDecode(cert.slhDsaSig).value)
  }
}
