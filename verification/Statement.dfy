/** What the guest accepts, stated a second time and independently of the guest's own predicates:
    in calls of the external libraries, in octets, and in positions of lists. */
module Statement {
  import opened Outcomes
  import opened Octets
  import opened MerkleRows
  import opened Utf8
  import opened TextField
  import opened Spki
  import opened Signatures
  import opened FullCrl
  import opened Stdin
  import opened Guest
  import CaTree
  import CrlTree
  import Challenges

  // ---------------------------------------------------------------- signatures

  /** PKCS #1 signatures: the last octet of the algorithm (section 1 of RFC 4055 and section 2.2.1 of
      RFC 3279) names scheme and digest. */
  predicate RsaSigned(c: Crypto, tbs: Bytes, signature: Bytes, oid: Bytes, spki: Bytes) {
    || (oid == [0x2A, 0x86, 0x48, 0x86, 0xF7, 0x0D, 0x01, 0x01, 0x05] && c.rsaVerify(spki, RsaSha1, c.sha1(tbs), signature))
    || (oid == [0x2A, 0x86, 0x48, 0x86, 0xF7, 0x0D, 0x01, 0x01, 0x0B] && c.rsaVerify(spki, RsaSha256, c.sha256(tbs), signature))
    || (oid == [0x2A, 0x86, 0x48, 0x86, 0xF7, 0x0D, 0x01, 0x01, 0x0C] && c.rsaVerify(spki, RsaSha384, c.sha384(tbs), signature))
    || (oid == [0x2A, 0x86, 0x48, 0x86, 0xF7, 0x0D, 0x01, 0x01, 0x0D] && c.rsaVerify(spki, RsaSha512, c.sha512(tbs), signature))
  }

  /** A curve by its identifier (section 2.1.1.1 of RFC 5480). */
  predicate NamesCurve(oid: Bytes, curve: Curve) {
    match curve
    case P256 => oid == [0x2A, 0x86, 0x48, 0xCE, 0x3D, 0x03, 0x01, 0x07]
    case P384 => oid == [0x2B, 0x81, 0x04, 0x00, 0x22]
  }

  /** Over the digest that the algorithm names. */
  predicate DigestSigned(c: Crypto, tbs: Bytes, signature: Bytes, oid: Bytes, point: Bytes, curve: Curve) {
    || (oid == [0x2A, 0x86, 0x48, 0xCE, 0x3D, 0x04, 0x03, 0x02] && c.ecVerify(curve, point, c.sha256(tbs), signature))
    || (oid == [0x2A, 0x86, 0x48, 0xCE, 0x3D, 0x04, 0x03, 0x03] && c.ecVerify(curve, point, c.sha384(tbs), signature))
  }

  /** ECDSA signatures (section 3.2 of RFC 5758): the digest by the algorithm, the curve by the key. */
  predicate EcdsaOn(c: Crypto, tbs: Bytes, signature: Bytes, oid: Bytes, spki: Bytes, curve: Curve) {
    && ExtractEcPoint(spki).Some? && ExtractCurveOid(spki).Some? && NamesCurve(ExtractCurveOid(spki).value, curve)
    && DigestSigned(c, tbs, signature, oid, ExtractEcPoint(spki).value, curve)
  }

  predicate EcdsaSigned(c: Crypto, tbs: Bytes, signature: Bytes, oid: Bytes, spki: Bytes) {
    EcdsaOn(c, tbs, signature, oid, spki, P256) || EcdsaOn(c, tbs, signature, oid, spki, P384)
  }

  predicate SignedUnder(c: Crypto, tbs: Bytes, signature: Bytes, oid: Bytes, spki: Bytes) {
    RsaSigned(c, tbs, signature, oid, spki) || EcdsaSigned(c, tbs, signature, oid, spki)
  }

  /** A signature over a hash by the key of a certificate. */
  predicate SignedByOwner(c: Crypto, key: PublicKey, hash: Hash, signature: Bytes) {
    if key.algOid == [0x2A, 0x86, 0x48, 0xCE, 0x3D, 0x02, 0x01] then
      || (key.curveOid == Some([0x2A, 0x86, 0x48, 0xCE, 0x3D, 0x03, 0x01, 0x07]) && c.ecVerify(P256, key.point, hash, signature))
      || (key.curveOid == Some([0x2B, 0x81, 0x04, 0x00, 0x22]) && c.ecVerify(P384, key.point, hash, signature))
    else c.rsaVerify(key.raw, RsaSha256, hash, signature)
  }

  lemma CurveExactly(oid: Bytes, curve: Curve)
    ensures CurveOf(oid) == Some(curve) <==> NamesCurve(oid, curve)
  {
    assert OID_P256[0] != OID_P384[0];
  }

  lemma RsaExactly(c: Crypto, tbs: Bytes, signature: Bytes, oid: Bytes, spki: Bytes)
    ensures VerifyRsa(c, tbs, signature, oid, spki) <==> RsaSigned(c, tbs, signature, oid, spki)
  {
    assert OID_SHA1_RSA[8] == 0x05 && OID_SHA256_RSA[8] == 0x0B && OID_SHA384_RSA[8] == 0x0C && OID_SHA512_RSA[8] == 0x0D;
  }

  lemma EcdsaExactly(c: Crypto, tbs: Bytes, signature: Bytes, oid: Bytes, spki: Bytes)
    ensures VerifyEcdsa(c, tbs, signature, oid, spki) <==> EcdsaSigned(c, tbs, signature, oid, spki)
  {
    if ExtractEcPoint(spki).Some? && ExtractCurveOid(spki).Some? {
      var point, curveOid := ExtractEcPoint(spki).value, ExtractCurveOid(spki).value;
      CurveExactly(curveOid, P256);
      CurveExactly(curveOid, P384);
      DigestExactly(c, tbs, signature, oid, point, curveOid);
    }
  }

  lemma DigestExactly(c: Crypto, tbs: Bytes, signature: Bytes, oid: Bytes, point: Bytes, curveOid: Bytes)
    ensures (if oid == OID_ECDSA_SHA256 then VerifyEcDigest(c, point, signature, c.sha256(tbs), curveOid)
             else oid == OID_ECDSA_SHA384 && VerifyEcDigest(c, point, signature, c.sha384(tbs), curveOid))
        <==> CurveOf(curveOid).Some? && DigestSigned(c, tbs, signature, oid, point, CurveOf(curveOid).value)
  {
    assert OID_ECDSA_SHA256[7] == 0x02 && OID_ECDSA_SHA384[7] == 0x03;
  }

  /** The algorithm identifiers fall under their family's prefix. */
  lemma Families(oid: Bytes)
    ensures oid in {OID_SHA1_RSA, OID_SHA256_RSA, OID_SHA384_RSA, OID_SHA512_RSA} ==> OID_PREFIX_RSA <= oid
    ensures oid in {OID_ECDSA_SHA256, OID_ECDSA_SHA384} ==> OID_PREFIX_ECDSA <= oid
    ensures !(OID_PREFIX_RSA <= oid && OID_PREFIX_ECDSA <= oid)
  {
    assert OID_SHA1_RSA[..8] == OID_SHA256_RSA[..8] == OID_SHA384_RSA[..8] == OID_SHA512_RSA[..8] == OID_PREFIX_RSA;
    assert OID_ECDSA_SHA256[..6] == OID_ECDSA_SHA384[..6] == OID_PREFIX_ECDSA;
    assert OID_PREFIX_RSA[3] == 0x86 && OID_PREFIX_ECDSA[3] == 0xCE;
  }

  /** Exactly the signatures on certificates and lists that the guest accepts. */
  lemma SignatureExactly(c: Crypto, tbs: Bytes, signature: Bytes, oid: Bytes, spki: Bytes)
    ensures VerifySignature(c, tbs, signature, oid, spki) <==> SignedUnder(c, tbs, signature, oid, spki)
  {
    RsaExactly(c, tbs, signature, oid, spki);
    EcdsaExactly(c, tbs, signature, oid, spki);
    Families(oid);
  }

  /** Exactly the signatures over the two challenges. */
  lemma OwnershipExactly(c: Crypto, hash: Hash, signature: Bytes, cert: Cert)
    ensures VerifyOwnership(c, hash, signature, cert) <==> SignedByOwner(c, cert.key, hash, signature)
  {
    assert OID_P256[0] != OID_P384[0];
  }

  /** Under an RSA algorithm identifier, a certificate's signature is checked with exactly the scheme
      and the digest that its last octet names. Every identifier but these four and the two of ECDSA is
      refused. */
  lemma RsaUsesTheScheme(c: Crypto, subject: Cert, spki: Bytes)
    ensures subject.sigAlgOid == [0x2A, 0x86, 0x48, 0x86, 0xF7, 0x0D, 0x01, 0x01, 0x05] ==>
              (VerifyCertSignature(c, subject, spki) <==> c.rsaVerify(spki, RsaSha1, c.sha1(subject.tbs), subject.signature))
    ensures subject.sigAlgOid == [0x2A, 0x86, 0x48, 0x86, 0xF7, 0x0D, 0x01, 0x01, 0x0B] ==>
              (VerifyCertSignature(c, subject, spki) <==> c.rsaVerify(spki, RsaSha256, c.sha256(subject.tbs), subject.signature))
    ensures subject.sigAlgOid == [0x2A, 0x86, 0x48, 0x86, 0xF7, 0x0D, 0x01, 0x01, 0x0C] ==>
              (VerifyCertSignature(c, subject, spki) <==> c.rsaVerify(spki, RsaSha384, c.sha384(subject.tbs), subject.signature))
    ensures subject.sigAlgOid == [0x2A, 0x86, 0x48, 0x86, 0xF7, 0x0D, 0x01, 0x01, 0x0D] ==>
              (VerifyCertSignature(c, subject, spki) <==> c.rsaVerify(spki, RsaSha512, c.sha512(subject.tbs), subject.signature))
    ensures VerifyCertSignature(c, subject, spki) ==>
              subject.sigAlgOid in {[0x2A, 0x86, 0x48, 0x86, 0xF7, 0x0D, 0x01, 0x01, 0x05],
                                    [0x2A, 0x86, 0x48, 0x86, 0xF7, 0x0D, 0x01, 0x01, 0x0B],
                                    [0x2A, 0x86, 0x48, 0x86, 0xF7, 0x0D, 0x01, 0x01, 0x0C],
                                    [0x2A, 0x86, 0x48, 0x86, 0xF7, 0x0D, 0x01, 0x01, 0x0D],
                                    [0x2A, 0x86, 0x48, 0xCE, 0x3D, 0x04, 0x03, 0x02],
                                    [0x2A, 0x86, 0x48, 0xCE, 0x3D, 0x04, 0x03, 0x03]}
  {
    SignatureExactly(c, subject.tbs, subject.signature, subject.sigAlgOid, spki);
    assert OID_SHA1_RSA[8] == 0x05 && OID_SHA256_RSA[8] == 0x0B && OID_SHA384_RSA[8] == 0x0C && OID_SHA512_RSA[8] == 0x0D;
    assert |OID_ECDSA_SHA256| == |OID_ECDSA_SHA384| == 8;
  }

  // ---------------------------------------------------------------- the statement

  /** The time, read as a signed number. */
  predicate IsTime(timestamp: u64, ts: int) {
    -0x8000_0000_0000_0000 <= ts < 0x8000_0000_0000_0000
    && (ts == timestamp || ts == timestamp - 0x1_0000_0000_0000_0000)
  }

  predicate InDate(cert: Cert, ts: int) {
    cert.notBefore <= ts && ts <= cert.notAfter
  }

  /** The key after certificate `i`. */
  function KeyAfter(ints: seq<Cert>, root: Bytes, i: nat): Bytes
    requires i < |ints|
  {
    if i == |ints| - 1 then root else ints[i + 1].key.raw
  }

  /** The certificates of the stream, and each signed by the next: the user's by the first
      intermediate, the last one by the root key, which ends the chain. */
  ghost predicate Chained(c: Crypto, p: Params, user: Cert, ints: seq<Cert>, root: Bytes) {
    && |p.certChain| == |ints| + 1 && p.certChain[|ints|] == root
    && c.parseCert(p.certDer) == Some(user)
    && (forall i | 0 <= i < |ints| :: c.parseCert(p.certChain[i]) == Some(ints[i]))
    && (var key := if ints == [] then root else ints[0].key.raw;
        SignedUnder(c, user.tbs, user.signature, user.sigAlgOid, key))
    && (forall i | 0 <= i < |ints| ::
          SignedUnder(c, ints[i].tbs, ints[i].signature, ints[i].sigAlgOid, KeyAfter(ints, root, i)))
  }

  /** The first intermediate with that name has the key, or none has the name and it is the root's. */
  ghost predicate KeyOfName(ints: seq<Cert>, root: Bytes, name: Name, key: Bytes) {
    || (exists i: nat :: i < |ints| && ints[i].subjectName == name && key == ints[i].key.raw
                         && forall j | 0 <= j < i :: ints[j].subjectName != name)
    || (key == root && forall j | 0 <= j < |ints| :: ints[j].subjectName != name)
  }

  /** A list of the same issuer, begun and not ended, signed, without the serial. */
  ghost predicate PassesList(c: Crypto, crlDer: Bytes, user: Cert, ints: seq<Cert>, root: Bytes, ts: int) {
    exists crl, key ::
      && c.parseCrl(crlDer) == Some(crl)
      && crl.issuerName == user.issuerName
      && crl.thisUpdate <= ts && (crl.nextUpdate == None || ts <= crl.nextUpdate.value)
      && KeyOfName(ints, root, user.issuerName, key)
      && SignedUnder(c, crl.tbs, crl.signature, crl.sigAlgOid, key)
      && forall i | 0 <= i < |crl.revoked| :: crl.revoked[i] != user.serial
  }

  /** The two leaves lie around the digest, under consecutive indices, with paths to the root. */
  predicate PassesTree(sha: Sha, serial: Bytes, crl: CrlInputs) {
    && Less(crl.leftLeaf, sha(serial)) && Less(sha(serial), crl.rightLeaf)
    && (crl.rightIndex == crl.leftIndex + 1 || (crl.leftIndex == 0xFFFF_FFFF && crl.rightIndex == 0))
    && Climb(sha, Positional, crl.leftLeaf, crl.leftPath, crl.leftDirs) == crl.root
    && Climb(sha, Positional, crl.rightLeaf, crl.rightPath, crl.rightDirs) == crl.root
  }

  /** A value that is asked for is the field of the first string attribute of its kind. */
  ghost predicate HasRequired(subject: seq<Attribute>, oid: Bytes, required: Hash) {
    (exists k :: 0 <= k < 32 && required[k] != 0) ==>
      exists i: nat, text :: IsFirstText(subject, oid, i, text) && required == CircuitField(Some(text))
  }

  ghost predicate HasAllRequired(subject: seq<Attribute>, required: Fields) {
    && HasRequired(subject, [0x55, 0x04, 0x06], required.country)
    && HasRequired(subject, [0x55, 0x04, 0x0A], required.org)
    && HasRequired(subject, [0x55, 0x04, 0x0B], required.orgUnit)
    && HasRequired(subject, [0x55, 0x04, 0x03], required.commonName)
  }

  /** Everything together. */
  ghost predicate Holds(c: Crypto, g: GuestInput, user: Cert, ints: seq<Cert>, root: Bytes, ts: int) {
    && g.p.walletIndex < g.p.maxWallets
    && Chained(c, g.p, user, ints, root)
    && IsTime(g.p.timestamp, ts) && InDate(user, ts) && (forall i | 0 <= i < |ints| :: InDate(ints[i], ts))
    && (g.p.crlDer != [] ==> PassesList(c, g.p.crlDer, user, ints, root, ts))
    && ((exists k :: 0 <= k < 32 && g.crl.root[k] != 0) ==> PassesTree(c.sha256, user.serial, g.crl))
    && SignedByOwner(c, user.key,
                     c.sha256(user.serial + g.p.registrant + ToBE(g.p.walletIndex, 4)
                              + ToBE(g.p.timestamp, 8) + ToBE(g.p.chainId, 8)),
                     g.p.ownershipSig)
    && SignedByOwner(c, user.key,
                     c.sha256(Challenges.NULLIFIER_DOMAIN + g.p.registryAddress + ToBE(g.p.chainId, 8)),
                     g.p.nullifierSig)
    && CaTree.Fold(c.sha256, c.sha256(root), g.p.caMerkleProof) == g.p.caMerkleRoot
    && HasAllRequired(user.subject, g.p.required)
  }

  // ---------------------------------------------------------------- the guest meets it

  lemma ZeroIsZeros(h: Hash)
    ensures h != ZERO <==> exists k :: 0 <= k < 32 && h[k] != 0
  {
    if forall k | 0 <= k < 32 :: h[k] == 0 {
      assert h == ZERO;
    }
  }

  lemma RequiredExactly(subject: seq<Attribute>, oid: Bytes, required: Hash)
    ensures Meets(subject, oid, required) <==> HasRequired(subject, oid, required)
  {
    ZeroIsZeros(required);
    if FirstText(subject, oid).Some? {
      FirstTextIsFirst(subject, oid, FirstText(subject, oid).value);
    }
    if i: nat, text :| IsFirstText(subject, oid, i, text) && required == CircuitField(Some(text)) {
      FirstTextIsFirst(subject, oid, text);
    }
  }

  lemma AllRequiredExactly(subject: seq<Attribute>, required: Fields)
    ensures MeetsAll(subject, required) <==> HasAllRequired(subject, required)
  {
    RequiredExactly(subject, OID_COUNTRY, required.country);
    RequiredExactly(subject, OID_ORG, required.org);
    RequiredExactly(subject, OID_ORG_UNIT, required.orgUnit);
    RequiredExactly(subject, OID_CN, required.commonName);
  }

  lemma TreeExactly(sha: Sha, serial: Bytes, crl: CrlInputs)
    ensures CrlOracleAccepts(sha, serial, crl)
        <==> ((exists k :: 0 <= k < 32 && crl.root[k] != 0) ==> PassesTree(sha, serial, crl))
  {
    ZeroIsZeros(crl.root);
    NextIndex(crl.leftIndex);
  }

  lemma NextIndex(i: u32)
    ensures CrlTree.Cut(U32, i + 1) == if i == 0xFFFF_FFFF then 0 else i + 1
  {
  }

  lemma KeyOfNameExactly(ints: seq<Cert>, root: Bytes, name: Name, key: Bytes)
    ensures CrlKey(ints, root, name) == key <==> KeyOfName(ints, root, name, key)
  {
    FirstNamedIs(ints, name, 0);
    if !Unnamed(ints, name) {
      var i := SomeFirstNamed(ints, name);
      FirstNamedIs(ints, name, i);
      forall j: nat | j < |ints| && ints[j].subjectName == name && (forall l | 0 <= l < j :: ints[l].subjectName != name)
        ensures j == i
      {
      }
    }
  }

  lemma ListExactly(c: Crypto, crlDer: Bytes, user: Cert, ints: seq<Cert>, root: Bytes, ts: i64)
    ensures FullCrlAccepts(c, crlDer, user, ints, root, ts) <==> PassesList(c, crlDer, user, ints, root, ts)
  {
    if c.parseCrl(crlDer).Some? {
      var crl := c.parseCrl(crlDer).value;
      var key := CrlKey(ints, root, user.issuerName);
      KeyOfNameExactly(ints, root, user.issuerName, key);
      SignatureExactly(c, crl.tbs, crl.signature, crl.sigAlgOid, key);
      forall other | KeyOfName(ints, root, user.issuerName, other) ensures other == key {
        KeyOfNameExactly(ints, root, user.issuerName, other);
      }
    }
  }

  /** Signer i for subject i is the next key for each certificate. */
  lemma LinksByParts(verify: Verifier, user: Cert, ints: seq<Cert>, root: Bytes)
    ensures ChainLinked(verify, user, ints, root)
        <==> && verify(user, if ints == [] then root else ints[0].key.raw)
             && forall i | 0 <= i < |ints| :: verify(ints[i], KeyAfter(ints, root, i))
  {
    forall i | 0 <= i < |ints|
      ensures SubjectCert(user, ints, i + 1) == ints[i] && SignerKey(ints, root, i + 1) == KeyAfter(ints, root, i)
    {
    }
    if ChainLinked(verify, user, ints, root) {
      assert verify(SubjectCert(user, ints, 0), SignerKey(ints, root, 0));
      forall i | 0 <= i < |ints| ensures verify(ints[i], KeyAfter(ints, root, i)) {
        assert verify(SubjectCert(user, ints, i + 1), SignerKey(ints, root, i + 1));
      }
    }
    if verify(user, if ints == [] then root else ints[0].key.raw) && forall i | 0 <= i < |ints| :: verify(ints[i], KeyAfter(ints, root, i)) {
      forall i | 0 <= i <= |ints| ensures verify(SubjectCert(user, ints, i), SignerKey(ints, root, i)) {
        if i > 0 {
          assert verify(ints[i - 1], KeyAfter(ints, root, i - 1));
        }
      }
    }
  }

  lemma LinksExactly(c: Crypto, user: Cert, ints: seq<Cert>, root: Bytes)
    ensures ChainLinked(CertVerifier(c), user, ints, root)
        <==> && SignedUnder(c, user.tbs, user.signature, user.sigAlgOid, if ints == [] then root else ints[0].key.raw)
             && forall i | 0 <= i < |ints| ::
                  SignedUnder(c, ints[i].tbs, ints[i].signature, ints[i].sigAlgOid, KeyAfter(ints, root, i))
  {
    LinksByParts(CertVerifier(c), user, ints, root);
    forall cert: Cert, key
      ensures CertVerifier(c)(cert, key) <==> SignedUnder(c, cert.tbs, cert.signature, cert.sigAlgOid, key)
    {
      SignatureExactly(c, cert.tbs, cert.signature, cert.sigAlgOid, key);
    }
  }

  lemma TimeExactly(timestamp: u64, ts: int)
    ensures IsTime(timestamp, ts) <==> ts == AsI64(timestamp)
  {
  }

  /** The accepted certificates, given that they are those of the stream. */
  lemma CertsExactly(c: Crypto, g: GuestInput, user: Cert, ints: seq<Cert>, root: Bytes)
    requires |g.p.certChain| == |ints| + 1 && g.p.certChain[|ints|] == root
    requires c.parseCert(g.p.certDer) == Some(user)
    requires forall i | 0 <= i < |ints| :: c.parseCert(g.p.certChain[i]) == Some(ints[i])
    requires g.p.walletIndex < g.p.maxWallets
    ensures CertsAccepted(c, g, user, ints, root) <==> Holds(c, g, user, ints, root, AsI64(g.p.timestamp))
  {
    var ts := AsI64(g.p.timestamp);
    TimeExactly(g.p.timestamp, ts);
    LinksExactly(c, user, ints, root);
    ListExactly(c, g.p.crlDer, user, ints, root, ts);
    TreeExactly(c.sha256, user.serial, g.crl);
    OwnershipExactly(c, OwnershipHash(c, g.p, user.serial), g.p.ownershipSig, user);
    OwnershipExactly(c, NullifierHash(c, g.p), g.p.nullifierSig, user);
    AllRequiredExactly(user.subject, g.p.required);
  }

  /** Exactly the inputs that the guest accepts. */
  lemma AcceptsExactly(c: Crypto, g: GuestInput)
    ensures Accepts(c, g) <==> exists user, ints, root, ts :: Holds(c, g, user, ints, root, ts)
  {
    if Accepts(c, g) {
      var user, ints, root := c.parseCert(g.p.certDer).value, Parsed(c, IntermediateDers(g.p)), RootKey(g.p);
      CertsExactly(c, g, user, ints, root);
    }
    if user, ints, root, ts :| Holds(c, g, user, ints, root, ts) {
      TimeExactly(g.p.timestamp, ts);
      assert Parsed(c, IntermediateDers(g.p)) == ints && RootKey(g.p) == root;
      CertsExactly(c, g, user, ints, root);
    }
  }

  // ---------------------------------------------------------------- what is committed

  /** A subject field under its mask bit. */
  ghost predicate ShownIf(subject: seq<Attribute>, oid: Bytes, on: bool, field: Hash) {
    && (forall i: nat, text | IsFirstText(subject, oid, i, text) :: field == if on then CircuitField(Some(text)) else ZERO)
    && ((forall i: nat, text :: !IsFirstText(subject, oid, i, text)) ==> field == ZERO)
  }

  lemma ShownField(subject: seq<Attribute>, oid: Bytes, on: bool)
    ensures ShownIf(subject, oid, on, FieldIf(subject, oid, on))
  {
    forall i: nat, text | IsFirstText(subject, oid, i, text)
      ensures FieldIf(subject, oid, on) == if on then CircuitField(Some(text)) else ZERO
    {
      FirstTextIsFirst(subject, oid, text);
    }
    if FirstText(subject, oid).Some? {
      FirstTextIsFirst(subject, oid, FirstText(subject, oid).value);
    }
  }

  /** The committed values, one by one: bit 0 of the mask shows the country, bit 1 the organization,
      bit 2 its unit, bit 3 the common name. */
  lemma CommittedExactly(c: Crypto, g: GuestInput, user: Cert)
    ensures var pv := Committed(c, g, user);
            && pv.nullifier == c.sha256(g.p.nullifierSig + ToBE(g.p.walletIndex, 4))
            && pv.caMerkleRoot == g.p.caMerkleRoot && pv.crlMerkleRoot == g.crl.root
            && pv.timestamp == g.p.timestamp && pv.registrant == g.p.registrant && pv.walletIndex == g.p.walletIndex
            && pv.chainId == g.p.chainId && pv.registryAddress == g.p.registryAddress && pv.required == g.p.required
            && IsTime(pv.notAfter, user.notAfter)
            && ShownIf(user.subject, [0x55, 0x04, 0x06], g.p.disclosureMask & 1 == 1, pv.disclosed.country)
            && ShownIf(user.subject, [0x55, 0x04, 0x0A], g.p.disclosureMask & 2 == 2, pv.disclosed.org)
            && ShownIf(user.subject, [0x55, 0x04, 0x0B], g.p.disclosureMask & 4 == 4, pv.disclosed.orgUnit)
            && ShownIf(user.subject, [0x55, 0x04, 0x03], g.p.disclosureMask & 8 == 8, pv.disclosed.commonName)
  {
    var mask := g.p.disclosureMask;
    SingleBits(mask);
    ShownField(user.subject, OID_COUNTRY, mask & 0x01 != 0);
    ShownField(user.subject, OID_ORG, mask & 0x02 != 0);
    ShownField(user.subject, OID_ORG_UNIT, mask & 0x04 != 0);
    ShownField(user.subject, OID_CN, mask & 0x08 != 0);
  }

  lemma SingleBits(mask: bv8)
    ensures mask & 0x01 != 0 <==> mask & 1 == 1
    ensures mask & 0x02 != 0 <==> mask & 2 == 2
    ensures mask & 0x04 != 0 <==> mask & 4 == 4
    ensures mask & 0x08 != 0 <==> mask & 8 == 8
  {
  }
}
