/** The host's signing code: which key types it signs for, over which messages, and that what it
    signs passes the guest. */
module Ownership {
  import opened Outcomes
  import opened Octets
  import opened Signatures
  import opened Challenges

  datatype SignError = ParseCert | UnsupportedAlgorithm | UnsupportedCurve | SigningFailed

  /** Signing with a private key in DER; fails on keys that do not parse. */
  datatype Signer = Signer(rsaSign: (Bytes, Hash) -> Option<Bytes>, ecSign: (Curve, Bytes, Hash) -> Option<Bytes>)

  const OID_RSA_ENCRYPTION: Bytes := [0x2A, 0x86, 0x48, 0x86, 0xF7, 0x0D, 0x01, 0x01, 0x01]

  /** The private key belongs to this public key: whatever is signed with it verifies. */
  ghost predicate KeyFits(c: Crypto, k: Signer, keyDer: Bytes, key: PublicKey) {
    && (forall h: Hash, sig | k.rsaSign(keyDer, h) == Some(sig) :: c.rsaVerify(key.raw, RsaSha256, h, sig))
    && (forall curve, h: Hash, sig | k.ecSign(curve, keyDer, h) == Some(sig) :: c.ecVerify(curve, key.point, h, sig))
  }

  /** What signing a hash gives. */
  function SignOutcome(k: Signer, key: PublicKey, keyDer: Bytes, hash: Hash): Result<Bytes, SignError> {
    if key.algOid == OID_EC_PUB then
      var curve := if key.curveOid.Some? then CurveOf(key.curveOid.value) else None;
      if curve.None? then Err(UnsupportedCurve) else Made(k.ecSign(curve.value, keyDer, hash))
    else if key.algOid == OID_RSA_ENCRYPTION then Made(k.rsaSign(keyDer, hash))
    else Err(UnsupportedAlgorithm)
  }

  /** A library's answer as a result. */
  function Made(answer: Option<Bytes>): (r: Result<Bytes, SignError>)
    ensures answer.Some? ==> r == Ok(answer.value)
    ensures answer.None? ==> r == Err(SigningFailed)
  {
    match answer
    case None => Err(SigningFailed)
    case Some(sig) => Ok(sig)
  }

  method SignEcdsaOwnership(k: Signer, cert: Cert, keyDer: Bytes, hash: Hash) returns (r: Result<Bytes, SignError>)
    requires cert.key.algOid == OID_EC_PUB
    ensures r == SignOutcome(k, cert.key, keyDer, hash)
  {
    var curveOid: Bytes := [];
    if cert.key.curveOid.Some? {
      curveOid := cert.key.curveOid.value;
    }
    var sig: Option<Bytes>;
    if curveOid == OID_P256 {
      sig := k.ecSign(P256, keyDer, hash);
    } else if curveOid == OID_P384 {
      sig := k.ecSign(P384, keyDer, hash);
    } else {
      return Err(UnsupportedCurve);
    }
    if sig.None? {
      return Err(SigningFailed);
    }
    return Ok(sig.value);
  }

  method SignWithParsedCert(k: Signer, cert: Cert, keyDer: Bytes, hash: Hash) returns (r: Result<Bytes, SignError>)
    ensures r == SignOutcome(k, cert.key, keyDer, hash)
    ensures r == Err(UnsupportedAlgorithm) <==> cert.key.algOid != OID_EC_PUB && cert.key.algOid != OID_RSA_ENCRYPTION
    ensures r == Err(UnsupportedCurve) <==>
            cert.key.algOid == OID_EC_PUB && cert.key.curveOid != Some(OID_P256) && cert.key.curveOid != Some(OID_P384)
  {
    KindsOfKey();
    if cert.key.algOid == OID_EC_PUB {
      r := SignEcdsaOwnership(k, cert, keyDer, hash);
    } else if cert.key.algOid == OID_RSA_ENCRYPTION {
      var sig := k.rsaSign(keyDer, hash);
      if sig.None? {
        return Err(SigningFailed);
      }
      return Ok(sig.value);
    } else {
      return Err(UnsupportedAlgorithm);
    }
  }

  method ParseAndSign(c: Crypto, k: Signer, certDer: Bytes, keyDer: Bytes, hash: Hash) returns (r: Result<Bytes, SignError>)
    ensures r == SignParsed(c, k, certDer, keyDer, hash)
  {
    var cert := c.parseCert(certDer);
    if cert.None? {
      return Err(ParseCert);
    }
    r := SignWithParsedCert(k, cert.value, keyDer, hash);
  }

  function SignParsed(c: Crypto, k: Signer, certDer: Bytes, keyDer: Bytes, hash: Hash): Result<Bytes, SignError> {
    match c.parseCert(certDer)
    case None => Err(ParseCert)
    case Some(cert) => SignOutcome(k, cert.key, keyDer, hash)
  }

  method OwnershipChallengeHash(c: Crypto, certDer: Bytes, registrant: Address, walletIndex: u32, timestamp: u64, chainId: u64)
    returns (r: Result<Hash, SignError>)
    ensures r == match c.parseCert(certDer)
                 case None => Err(ParseCert)
                 case Some(cert) =>
                   Ok(c.sha256(OwnershipPreimage(cert.serial, registrant, walletIndex, timestamp, chainId)))
  {
    var cert := c.parseCert(certDer);
    if cert.None? {
      return Err(ParseCert);
    }
    var hasher: Bytes := cert.value.serial;
    hasher := hasher + registrant;
    hasher := hasher + ToBE(walletIndex, 4);
    hasher := hasher + ToBE(timestamp, 8);
    hasher := hasher + ToBE(chainId, 8);
    return Ok(c.sha256(hasher));
  }

  method NullifierChallengeHash(sha: Sha, registry: Address, chainId: u64) returns (hash: Hash)
    ensures hash == sha(NullifierPreimage(registry, chainId))
  {
    var hasher: Bytes := NULLIFIER_DOMAIN;
    hasher := hasher + registry;
    hasher := hasher + ToBE(chainId, 8);
    return sha(hasher);
  }

  method SignOwnership(c: Crypto, k: Signer, certDer: Bytes, keyDer: Bytes, registrant: Address,
                       walletIndex: u32, timestamp: u64, chainId: u64) returns (r: Result<Bytes, SignError>)
    ensures c.parseCert(certDer).None? ==> r == Err(ParseCert)
    ensures c.parseCert(certDer).Some? ==>
              var cert := c.parseCert(certDer).value;
              var claim := OwnershipPreimage(cert.serial, registrant, walletIndex, timestamp, chainId);
              && r == SignOutcome(k, cert.key, keyDer, c.sha256(claim))
              && (KeyFits(c, k, keyDer, cert.key) && r.Ok? ==> VerifyOwnership(c, c.sha256(claim), r.value, cert))
  {
    var hash :- OwnershipChallengeHash(c, certDer, registrant, walletIndex, timestamp, chainId);
    r := ParseAndSign(c, k, certDer, keyDer, hash);
    SignatureVerifies(c, k, keyDer, c.parseCert(certDer).value, hash);
  }

  method SignNullifier(c: Crypto, k: Signer, certDer: Bytes, keyDer: Bytes, registry: Address, chainId: u64)
    returns (r: Result<Bytes, SignError>)
    ensures c.parseCert(certDer).None? ==> r == Err(ParseCert)
    ensures c.parseCert(certDer).Some? ==>
              var cert := c.parseCert(certDer).value;
              var domain := NullifierPreimage(registry, chainId);
              && r == SignOutcome(k, cert.key, keyDer, c.sha256(domain))
              && (KeyFits(c, k, keyDer, cert.key) && r.Ok? ==> VerifyOwnership(c, c.sha256(domain), r.value, cert))
  {
    var hash := NullifierChallengeHash(c.sha256, registry, chainId);
    r := ParseAndSign(c, k, certDer, keyDer, hash);
    if c.parseCert(certDer).Some? {
      SignatureVerifies(c, k, keyDer, c.parseCert(certDer).value, hash);
    }
  }

  lemma KindsOfKey()
    ensures OID_RSA_ENCRYPTION != OID_EC_PUB && OID_P256 != OID_P384
  {
    assert OID_RSA_ENCRYPTION[3] == 0x86 && OID_EC_PUB[3] == 0xCE;
    assert OID_P256[0] == 0x2A && OID_P384[0] == 0x2B;
  }

  /** Host and guest choose the algorithm and the curve alike: whatever the host signs for a
      certificate, with the key that belongs to it, passes the guest's check. */
  lemma SignatureVerifies(c: Crypto, k: Signer, keyDer: Bytes, cert: Cert, hash: Hash)
    ensures KeyFits(c, k, keyDer, cert.key) && SignOutcome(k, cert.key, keyDer, hash).Ok?
        ==> VerifyOwnership(c, hash, SignOutcome(k, cert.key, keyDer, hash).value, cert)
  {
    KindsOfKey();
  }

  /** Exactly what signing gives: the signature that the library makes with the RSA key or on the named
      curve, in octets of the identifiers; an error where it makes none. */
  lemma SignOutcomeExactly(k: Signer, key: PublicKey, keyDer: Bytes, hash: Hash)
    ensures key.algOid == [0x2A, 0x86, 0x48, 0x86, 0xF7, 0x0D, 0x01, 0x01, 0x01] ==>
              SignOutcome(k, key, keyDer, hash) == Made(k.rsaSign(keyDer, hash))
    ensures key.algOid == [0x2A, 0x86, 0x48, 0xCE, 0x3D, 0x02, 0x01]
            && key.curveOid == Some([0x2A, 0x86, 0x48, 0xCE, 0x3D, 0x03, 0x01, 0x07]) ==>
              SignOutcome(k, key, keyDer, hash) == Made(k.ecSign(P256, keyDer, hash))
    ensures key.algOid == [0x2A, 0x86, 0x48, 0xCE, 0x3D, 0x02, 0x01]
            && key.curveOid == Some([0x2B, 0x81, 0x04, 0x00, 0x22]) ==>
              SignOutcome(k, key, keyDer, hash) == Made(k.ecSign(P384, keyDer, hash))
  {
    KindsOfKey();
  }

}
