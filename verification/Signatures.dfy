/** Parsed certificates and revocation lists, and the signature checks of the guest. Cryptography
    and X.509 parsing are parameters. */
module Signatures {
  import opened Outcomes
  import opened Octets
  import opened Utf8
  import opened Spki

  // ---------------------------------------------------------------- parsed certificates

  /** A subject attribute; `text` is absent where it is not a string. */
  datatype Attribute = Attribute(oid: Bytes, text: Option<Text>)

  datatype PublicKey = PublicKey(raw: Bytes, algOid: Bytes, point: Bytes, curveOid: Option<Bytes>)

  /** A distinguished name, up to the equality that the parser gives it. */
  type Name = Bytes

  datatype Cert = Cert(tbs: Bytes, signature: Bytes, sigAlgOid: Bytes, key: PublicKey, serial: Bytes,
                       issuerName: Name, subjectName: Name,
                       notBefore: i64, notAfter: i64, subject: seq<Attribute>)

  /** `revoked` holds the serials of the entries as raw octets. */
  datatype Crl = Crl(tbs: Bytes, signature: Bytes, sigAlgOid: Bytes, issuerName: Name,
                     thisUpdate: i64, nextUpdate: Option<i64>, revoked: seq<Bytes>)

  datatype RsaScheme = RsaSha1 | RsaSha256 | RsaSha384 | RsaSha512

  datatype Curve = P256 | P384

  /** What lies outside this model. A verifier also answers false where a key or a signature
      does not parse. */
  datatype Crypto = Crypto(
    sha256: Sha, sha1: Bytes -> Bytes, sha384: Bytes -> Bytes, sha512: Bytes -> Bytes,
    rsaVerify: (Bytes, RsaScheme, Bytes, Bytes) -> bool,
    ecVerify: (Curve, Bytes, Bytes, Bytes) -> bool,
    parseCert: Bytes -> Option<Cert>,
    parseCrl: Bytes -> Option<Crl>)

  // ---------------------------------------------------------------- signatures

  const OID_SHA256_RSA: Bytes := [0x2A, 0x86, 0x48, 0x86, 0xF7, 0x0D, 0x01, 0x01, 0x0B]
  const OID_SHA1_RSA: Bytes := [0x2A, 0x86, 0x48, 0x86, 0xF7, 0x0D, 0x01, 0x01, 0x05]
  const OID_SHA384_RSA: Bytes := [0x2A, 0x86, 0x48, 0x86, 0xF7, 0x0D, 0x01, 0x01, 0x0C]
  const OID_SHA512_RSA: Bytes := [0x2A, 0x86, 0x48, 0x86, 0xF7, 0x0D, 0x01, 0x01, 0x0D]
  const OID_PREFIX_RSA: Bytes := [0x2A, 0x86, 0x48, 0x86, 0xF7, 0x0D, 0x01, 0x01]
  const OID_ECDSA_SHA256: Bytes := [0x2A, 0x86, 0x48, 0xCE, 0x3D, 0x04, 0x03, 0x02]
  const OID_ECDSA_SHA384: Bytes := [0x2A, 0x86, 0x48, 0xCE, 0x3D, 0x04, 0x03, 0x03]
  const OID_PREFIX_ECDSA: Bytes := [0x2A, 0x86, 0x48, 0xCE, 0x3D, 0x04]
  const OID_EC_PUB: Bytes := [0x2A, 0x86, 0x48, 0xCE, 0x3D, 0x02, 0x01]
  const OID_P256: Bytes := [0x2A, 0x86, 0x48, 0xCE, 0x3D, 0x03, 0x01, 0x07]
  const OID_P384: Bytes := [0x2B, 0x81, 0x04, 0x00, 0x22]

  function CurveOf(oid: Bytes): Option<Curve> {
    if oid == OID_P256 then Some(P256)
    else if oid == OID_P384 then Some(P384)
    else None
  }

  predicate VerifyRsa(c: Crypto, tbs: Bytes, signature: Bytes, oid: Bytes, spki: Bytes) {
    if oid == OID_SHA256_RSA then c.rsaVerify(spki, RsaSha256, c.sha256(tbs), signature)
    else if oid == OID_SHA1_RSA then c.rsaVerify(spki, RsaSha1, c.sha1(tbs), signature)
    else if oid == OID_SHA384_RSA then c.rsaVerify(spki, RsaSha384, c.sha384(tbs), signature)
    else if oid == OID_SHA512_RSA then c.rsaVerify(spki, RsaSha512, c.sha512(tbs), signature)
    else false
  }

  /** The curve comes from the key, the digest from the signature algorithm. */
  predicate VerifyEcdsa(c: Crypto, tbs: Bytes, signature: Bytes, oid: Bytes, spki: Bytes) {
    match (ExtractEcPoint(spki), ExtractCurveOid(spki))
    case (Some(point), Some(curveOid)) =>
      if oid == OID_ECDSA_SHA256 then VerifyEcDigest(c, point, signature, c.sha256(tbs), curveOid)
      else if oid == OID_ECDSA_SHA384 then VerifyEcDigest(c, point, signature, c.sha384(tbs), curveOid)
      else false
    case _ => false
  }

  predicate VerifyEcDigest(c: Crypto, point: Bytes, signature: Bytes, digest: Bytes, curveOid: Bytes) {
    match CurveOf(curveOid)
    case Some(curve) => c.ecVerify(curve, point, digest, signature)
    case None => false
  }

  /** `verify_cert_signature`, for certificates and for revocation lists. */
  predicate VerifySignature(c: Crypto, tbs: Bytes, signature: Bytes, oid: Bytes, signerSpki: Bytes) {
    if OID_PREFIX_RSA <= oid then VerifyRsa(c, tbs, signature, oid, signerSpki)
    else if OID_PREFIX_ECDSA <= oid then VerifyEcdsa(c, tbs, signature, oid, signerSpki)
    else false
  }

  predicate VerifyCertSignature(c: Crypto, subject: Cert, signerSpki: Bytes) {
    VerifySignature(c, subject.tbs, subject.signature, subject.sigAlgOid, signerSpki)
  }

  /** The holder of the certificate's key signed this hash. */
  predicate VerifyOwnership(c: Crypto, hash: Hash, signature: Bytes, cert: Cert) {
    if cert.key.algOid == OID_EC_PUB then
      cert.key.curveOid.Some? && VerifyEcDigest(c, cert.key.point, signature, hash, cert.key.curveOid.value)
    else c.rsaVerify(cert.key.raw, RsaSha256, hash, signature)
  }

  lemma EcdsaOids(oid: Bytes)
    requires oid == OID_ECDSA_SHA256 || oid == OID_ECDSA_SHA384
    ensures !(OID_PREFIX_RSA <= oid) && OID_PREFIX_ECDSA <= oid
    ensures OID_ECDSA_SHA256 != OID_ECDSA_SHA384
  {
    assert oid[3] == 0xCE && OID_PREFIX_RSA[3] == 0x86;
    assert oid[..6] == OID_PREFIX_ECDSA;
    assert OID_ECDSA_SHA256[7] == 0x02 && OID_ECDSA_SHA384[7] == 0x03;
  }

  /** An ECDSA certificate signature under a well-formed EC key is checked with exactly that key:
      its point on its curve. */
  lemma EcdsaUsesTheKey(c: Crypto, subject: Cert, algOid: Bytes, curveOid: Bytes, point: Bytes, curve: Curve)
    requires |algOid| + |curveOid| + |point| < 0x8000_0000_0000_0000
    requires |EcSpki(algOid, curveOid, point)| >= MIN_SPKI_LEN
    requires CurveOf(curveOid) == Some(curve)
    requires subject.sigAlgOid == OID_ECDSA_SHA256 || subject.sigAlgOid == OID_ECDSA_SHA384
    ensures VerifyCertSignature(c, subject, EcSpki(algOid, curveOid, point))
        <==> c.ecVerify(curve, point,
                        if subject.sigAlgOid == OID_ECDSA_SHA256 then c.sha256(subject.tbs) else c.sha384(subject.tbs),
                        subject.signature)
  {
    var spki := EcSpki(algOid, curveOid, point);
    CurveRoundTrip(algOid, curveOid, point);
    PointRoundTrip(algOid, curveOid, point);
    EcdsaOids(subject.sigAlgOid);
    EcdsaByParts(c, subject.tbs, subject.signature, subject.sigAlgOid, spki, point, curveOid, curve);
  }

  lemma EcdsaByParts(c: Crypto, tbs: Bytes, signature: Bytes, oid: Bytes, spki: Bytes,
                     point: Bytes, curveOid: Bytes, curve: Curve)
    requires ExtractEcPoint(spki) == Some(point) && ExtractCurveOid(spki) == Some(curveOid)
    requires CurveOf(curveOid) == Some(curve)
    requires oid == OID_ECDSA_SHA256 || oid == OID_ECDSA_SHA384
    ensures VerifyEcdsa(c, tbs, signature, oid, spki)
        <==> c.ecVerify(curve, point, if oid == OID_ECDSA_SHA256 then c.sha256(tbs) else c.sha384(tbs), signature)
  {
  }
}
