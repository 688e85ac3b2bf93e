/** The zkVM guest: everything it checks, and the public values it commits. A panic of the guest
    is a rejected run. */
module Guest {
  import opened Outcomes
  import opened Octets
  import opened MerkleRows
  import opened Utf8
  import opened TextField
  import opened Signatures
  import opened FullCrl
  import opened Stdin
  import CrlTree
  import CaTree
  import Challenges

  // ---------------------------------------------------------------- Merkle verifiers

  method VerifyMerkleMembership(sha: Sha, leaf: Hash, path: seq<Hash>) returns (current: Hash)
    ensures current == CaTree.Fold(sha, leaf, path)
  {
    current := leaf;
    for k := 0 to |path|
      invariant CaTree.Fold(sha, current, path[k..]) == CaTree.Fold(sha, leaf, path)
    {
      var sibling := path[k];
      var hasher: Bytes;
      if !Less(sibling, current) {
        hasher := current;
        hasher := hasher + sibling;
      } else {
        hasher := sibling;
        hasher := hasher + current;
      }
      assert hasher == Preimage(SortedPair, current, sibling);
      current := sha(hasher);
    }
  }

  method VerifyCrlMerkleProof(sha: Sha, leaf: Hash, path: seq<Hash>, dirs: seq<bool>) returns (current: Hash)
    ensures current == Climb(sha, Positional, leaf, path, dirs)
  {
    current := leaf;
    var k := 0;
    while k < |path| && k < |dirs|
      invariant k <= |path| && k <= |dirs|
      invariant Climb(sha, Positional, current, path[k..], dirs[k..]) == Climb(sha, Positional, leaf, path, dirs)
    {
      var hasher: Bytes;
      if dirs[k] {
        hasher := current;
        hasher := hasher + path[k];
      } else {
        hasher := path[k];
        hasher := hasher + current;
      }
      current := sha(hasher);
      k := k + 1;
    }
  }

  /** The CRL fields of the input as a proof of absence. */
  function CrlProof(crl: CrlInputs): CrlTree.NonInclusionProof {
    CrlTree.NonInclusionProof(crl.leftLeaf, crl.rightLeaf, crl.leftPath, crl.leftDirs,
                              crl.rightPath, crl.rightDirs, crl.leftIndex, crl.rightIndex)
  }

  /** A zero root switches the check off. */
  predicate CrlOracleAccepts(sha: Sha, serial: Bytes, crl: CrlInputs) {
    crl.root != ZERO ==> CrlTree.Accepts(sha, sha(serial), CrlProof(crl), crl.root, U32)
  }

  method CheckCrlOracle(sha: Sha, serial: Bytes, crl: CrlInputs) returns (ok: bool)
    ensures ok <==> CrlOracleAccepts(sha, serial, crl)
  {
    if crl.root != ZERO {
      var serialHash := sha(serial);
      if !Less(crl.leftLeaf, serialHash) || !Less(serialHash, crl.rightLeaf) {
        return false;
      }
      var nextIndex := if crl.leftIndex + 1 == U32 then 0 else crl.leftIndex + 1;
      assert nextIndex == CrlTree.Cut(U32, crl.leftIndex + 1);
      if crl.rightIndex != nextIndex {
        return false;
      }
      var leftRoot := VerifyCrlMerkleProof(sha, crl.leftLeaf, crl.leftPath, crl.leftDirs);
      if leftRoot != crl.root {
        return false;
      }
      var rightRoot := VerifyCrlMerkleProof(sha, crl.rightLeaf, crl.rightPath, crl.rightDirs);
      if rightRoot != crl.root {
        return false;
      }
    }
    return true;
  }

  // ---------------------------------------------------------------- selective disclosure

  const OID_COUNTRY: Bytes := [0x55, 0x04, 0x06]
  const OID_ORG: Bytes := [0x55, 0x04, 0x0A]
  const OID_ORG_UNIT: Bytes := [0x55, 0x04, 0x0B]
  const OID_CN: Bytes := [0x55, 0x04, 0x03]

  /** The first string value of that kind. */
  function FirstText(subject: seq<Attribute>, oid: Bytes): Option<Text> {
    if |subject| == 0 then None
    else
      var n := |subject| - 1;
      var earlier := FirstText(subject[..n], oid);
      if earlier.Some? then earlier
      else if subject[n].oid == oid then subject[n].text
      else None
  }

  /** Attribute `i` is the first of its kind that is a string. */
  ghost predicate IsFirstText(subject: seq<Attribute>, oid: Bytes, i: nat, text: Text) {
    && i < |subject|
    && subject[i].oid == oid && subject[i].text == Some(text)
    && forall j | 0 <= j < i && subject[j].oid == oid :: subject[j].text.None?
  }

  lemma {:induction false} FirstTextIsFirst(subject: seq<Attribute>, oid: Bytes, text: Text)
    ensures FirstText(subject, oid) == Some(text) <==> exists i :: IsFirstText(subject, oid, i, text)
    ensures FirstText(subject, oid).None? <==>
            forall j | 0 <= j < |subject| && subject[j].oid == oid :: subject[j].text.None?
  {
    if subject != [] {
      var n := |subject| - 1;
      var front := subject[..n];
      FirstTextIsFirst(front, oid, text);
      if i: nat :| IsFirstText(front, oid, i, text) {
        assert IsFirstText(subject, oid, i, text);
      }
      if i: nat :| IsFirstText(subject, oid, i, text) {
        if i < n {
          assert IsFirstText(front, oid, i, text);
        } else {
          assert forall j | 0 <= j < |front| && front[j].oid == oid :: front[j].text.None?;
        }
      }
      if FirstText(subject, oid) == Some(text) && FirstText(front, oid).None? {
        assert IsFirstText(subject, oid, n, text);
      }
    }
  }

  function FieldIf(subject: seq<Attribute>, oid: Bytes, on: bool): Hash {
    if on then CircuitField(FirstText(subject, oid)) else ZERO
  }

  /** The four fields under a mask: bit 0 country, 1 organization, 2 unit, 3 common name. */
  function SubjectFields(subject: seq<Attribute>, mask: bv8): Fields {
    Fields(FieldIf(subject, OID_COUNTRY, mask & 0x01 != 0),
           FieldIf(subject, OID_ORG, mask & 0x02 != 0),
           FieldIf(subject, OID_ORG_UNIT, mask & 0x04 != 0),
           FieldIf(subject, OID_CN, mask & 0x08 != 0))
  }

  method ExtractSubjectFields(subject: seq<Attribute>, mask: bv8) returns (f: Fields)
    ensures f == SubjectFields(subject, mask)
  {
    var effective := mask & 0x0F;
    if effective == 0 {
      return Fields(ZERO, ZERO, ZERO, ZERO);
    }
    var country, org, unit, cn: Option<Text> := None, None, None, None;
    for i := 0 to |subject|
      invariant country == if effective & 0x01 != 0 then FirstText(subject[..i], OID_COUNTRY) else None
      invariant org == if effective & 0x02 != 0 then FirstText(subject[..i], OID_ORG) else None
      invariant unit == if effective & 0x04 != 0 then FirstText(subject[..i], OID_ORG_UNIT) else None
      invariant cn == if effective & 0x08 != 0 then FirstText(subject[..i], OID_CN) else None
    {
      var attr := subject[i];
      assert subject[..i + 1][..i] == subject[..i];
      DistinctKinds();
      if attr.text.Some? {
        if attr.oid == OID_COUNTRY && effective & 0x01 != 0 && country.None? {
          country := attr.text;
        } else if attr.oid == OID_ORG && effective & 0x02 != 0 && org.None? {
          org := attr.text;
        } else if attr.oid == OID_ORG_UNIT && effective & 0x04 != 0 && unit.None? {
          unit := attr.text;
        } else if attr.oid == OID_CN && effective & 0x08 != 0 && cn.None? {
          cn := attr.text;
        }
      }
    }
    assert subject[..|subject|] == subject;
    var countryField, orgField, unitField, cnField := ZERO, ZERO, ZERO, ZERO;
    if effective & 0x01 != 0 {
      countryField := ToBytes32(country);
    }
    if effective & 0x02 != 0 {
      orgField := ToBytes32(org);
    }
    if effective & 0x04 != 0 {
      unitField := ToBytes32(unit);
    }
    if effective & 0x08 != 0 {
      cnField := ToBytes32(cn);
    }
    LowBits(mask);
    return Fields(countryField, orgField, unitField, cnField);
  }

  lemma DistinctKinds()
    ensures OID_COUNTRY != OID_ORG && OID_COUNTRY != OID_ORG_UNIT && OID_COUNTRY != OID_CN
    ensures OID_ORG != OID_ORG_UNIT && OID_ORG != OID_CN && OID_ORG_UNIT != OID_CN
  {
    assert OID_COUNTRY[2] == 0x06 && OID_ORG[2] == 0x0A && OID_ORG_UNIT[2] == 0x0B && OID_CN[2] == 0x03;
  }

  lemma LowBits(mask: bv8)
    ensures (mask & 0x0F) & 0x01 == mask & 0x01 && (mask & 0x0F) & 0x02 == mask & 0x02
    ensures (mask & 0x0F) & 0x04 == mask & 0x04 && (mask & 0x0F) & 0x08 == mask & 0x08
  {
  }

  /** One requirement: nothing, or exactly the encoding of the first value. */
  predicate Meets(subject: seq<Attribute>, oid: Bytes, required: Hash) {
    required != ZERO ==> CircuitField(FirstText(subject, oid)) == required
  }

  predicate MeetsAll(subject: seq<Attribute>, required: Fields) {
    && Meets(subject, OID_COUNTRY, required.country)
    && Meets(subject, OID_ORG, required.org)
    && Meets(subject, OID_ORG_UNIT, required.orgUnit)
    && Meets(subject, OID_CN, required.commonName)
  }

  /** The bits of the non-zero requirements. */
  method ConstraintMask(required: Fields) returns (mask: bv8)
    ensures mask & 0x01 != 0 <==> required.country != ZERO
    ensures mask & 0x02 != 0 <==> required.org != ZERO
    ensures mask & 0x04 != 0 <==> required.orgUnit != ZERO
    ensures mask & 0x08 != 0 <==> required.commonName != ZERO
  {
    mask := 0;
    if required.country != ZERO {
      mask := mask | 0x01;
    }
    if required.org != ZERO {
      mask := mask | 0x02;
    }
    if required.orgUnit != ZERO {
      mask := mask | 0x04;
    }
    if required.commonName != ZERO {
      mask := mask | 0x08;
    }
  }

  lemma UnionBits(a: bv8, b: bv8)
    ensures (a | b) & 0x01 != 0 <==> a & 0x01 != 0 || b & 0x01 != 0
    ensures (a | b) & 0x02 != 0 <==> a & 0x02 != 0 || b & 0x02 != 0
    ensures (a | b) & 0x04 != 0 <==> a & 0x04 != 0 || b & 0x04 != 0
    ensures (a | b) & 0x08 != 0 <==> a & 0x08 != 0 || b & 0x08 != 0
  {
  }

  /** One field of the combined extraction, compared where it is constrained. */
  lemma ComparedField(subject: seq<Attribute>, oid: Bytes, disclosed: bool, required: Hash)
    ensures var val := FieldIf(subject, oid, disclosed || required != ZERO);
            && (required != ZERO && val != required <==> !Meets(subject, oid, required))
            && (if disclosed then val else ZERO) == FieldIf(subject, oid, disclosed)
  {
  }

  /** Step 9 of the guest. One extraction serves constraints and disclosure; what comes out
      depends on the disclosure mask alone, and whether it comes out on the requirements alone. */
  method DiscloseAndConstrain(subject: seq<Attribute>, disclosureMask: bv8, required: Fields)
    returns (r: Option<Fields>)
    ensures r.Some? <==> MeetsAll(subject, required)
    ensures r.Some? ==> r.value == SubjectFields(subject, disclosureMask)
  {
    var constraintMask := ConstraintMask(required);
    UnionBits(disclosureMask, constraintMask);
    var vals := ExtractSubjectFields(subject, disclosureMask | constraintMask);
    ComparedField(subject, OID_COUNTRY, disclosureMask & 0x01 != 0, required.country);
    ComparedField(subject, OID_ORG, disclosureMask & 0x02 != 0, required.org);
    ComparedField(subject, OID_ORG_UNIT, disclosureMask & 0x04 != 0, required.orgUnit);
    ComparedField(subject, OID_CN, disclosureMask & 0x08 != 0, required.commonName);
    if constraintMask & 0x01 != 0 && vals.country != required.country {
      return None;
    }
    if constraintMask & 0x02 != 0 && vals.org != required.org {
      return None;
    }
    if constraintMask & 0x04 != 0 && vals.orgUnit != required.orgUnit {
      return None;
    }
    if constraintMask & 0x08 != 0 && vals.commonName != required.commonName {
      return None;
    }
    return Some(Fields(
      if disclosureMask & 0x01 != 0 then vals.country else ZERO,
      if disclosureMask & 0x02 != 0 then vals.org else ZERO,
      if disclosureMask & 0x04 != 0 then vals.orgUnit else ZERO,
      if disclosureMask & 0x08 != 0 then vals.commonName else ZERO));
  }

  // ---------------------------------------------------------------- the statement

  /** `as i64`. */
  function AsI64(n: u64): i64 {
    if n < 0x8000_0000_0000_0000 then n else n - 0x1_0000_0000_0000_0000
  }

  /** `as u64`. */
  function AsU64(n: i64): u64 {
    if n >= 0 then n else n + 0x1_0000_0000_0000_0000
  }

  predicate ValidAt(cert: Cert, ts: i64) {
    cert.notBefore <= ts <= cert.notAfter
  }

  /** The intermediate certificates parse. */
  predicate AllParse(c: Crypto, ders: seq<Bytes>) {
    forall i | 0 <= i < |ders| :: c.parseCert(ders[i]).Some?
  }

  function Parsed(c: Crypto, ders: seq<Bytes>): (certs: seq<Cert>)
    requires AllParse(c, ders)
    ensures |certs| == |ders|
  {
    seq(|ders|, i requires 0 <= i < |ders| => c.parseCert(ders[i]).value)
  }

  /** Subject 0 is the user certificate, subject i + 1 intermediate i. */
  function SubjectCert(user: Cert, intermediates: seq<Cert>, i: nat): Cert
    requires i <= |intermediates|
  {
    if i == 0 then user else intermediates[i - 1]
  }

  /** Signer `i` is intermediate `i`, and after the last one the root key. */
  function SignerKey(intermediates: seq<Cert>, rootKey: Bytes, i: nat): Bytes {
    if i < |intermediates| then intermediates[i].key.raw else rootKey
  }

  /** Checks a subject's signature under a signer's key. */
  type Verifier = (Cert, Bytes) -> bool

  function CertVerifier(c: Crypto): Verifier {
    (subject: Cert, signerSpki: Bytes) => VerifyCertSignature(c, subject, signerSpki)
  }

  /** The uniform rule: signer i signs subject i, for the user certificate and every intermediate. */
  predicate ChainLinked(verify: Verifier, user: Cert, intermediates: seq<Cert>, rootKey: Bytes) {
    forall i | 0 <= i <= |intermediates| ::
      verify(SubjectCert(user, intermediates, i), SignerKey(intermediates, rootKey, i))
  }

  /** Everything the guest demands of the parsed certificates. */
  predicate CertsAccepted(c: Crypto, g: GuestInput, user: Cert, intermediates: seq<Cert>, rootKey: Bytes) {
    var ts := AsI64(g.p.timestamp);
    && ValidAt(user, ts)
    && (forall i | 0 <= i < |intermediates| :: ValidAt(intermediates[i], ts))
    && ChainLinked(CertVerifier(c), user, intermediates, rootKey)
    && (g.p.crlDer != [] ==> FullCrlAccepts(c, g.p.crlDer, user, intermediates, rootKey, ts))
    && CrlOracleAccepts(c.sha256, user.serial, g.crl)
    && VerifyOwnership(c, OwnershipHash(c, g.p, user.serial), g.p.ownershipSig, user)
    && VerifyOwnership(c, NullifierHash(c, g.p), g.p.nullifierSig, user)
    && CaTree.Fold(c.sha256, c.sha256(rootKey), g.p.caMerkleProof) == g.p.caMerkleRoot
    && MeetsAll(user.subject, g.p.required)
  }

  function OwnershipHash(c: Crypto, p: Params, serial: Bytes): Hash {
    c.sha256(Challenges.OwnershipPreimage(serial, p.registrant, p.walletIndex, p.timestamp, p.chainId))
  }

  function NullifierHash(c: Crypto, p: Params): Hash {
    c.sha256(Challenges.NullifierPreimage(p.registryAddress, p.chainId))
  }

  function RootKey(p: Params): Bytes
    requires p.certChain != []
  {
    p.certChain[|p.certChain| - 1]
  }

  function IntermediateDers(p: Params): seq<Bytes>
    requires p.certChain != []
  {
    p.certChain[..|p.certChain| - 1]
  }

  /** Exactly the inputs on which the guest commits. */
  predicate Accepts(c: Crypto, g: GuestInput) {
    && g.p.certChain != []
    && g.p.walletIndex < g.p.maxWallets
    && c.parseCert(g.p.certDer).Some?
    && AllParse(c, IntermediateDers(g.p))
    && CertsAccepted(c, g, c.parseCert(g.p.certDer).value, Parsed(c, IntermediateDers(g.p)), RootKey(g.p))
  }

  datatype PublicValues = PublicValues(
    nullifier: Hash, caMerkleRoot: Hash, timestamp: u64, registrant: Address, walletIndex: u32,
    notAfter: u64, chainId: u64, registryAddress: Address, crlMerkleRoot: Hash,
    disclosed: Fields, required: Fields)

  function Committed(c: Crypto, g: GuestInput, user: Cert): PublicValues {
    PublicValues(
      c.sha256(g.p.nullifierSig + ToBE(g.p.walletIndex, 4)),
      g.p.caMerkleRoot, g.p.timestamp, g.p.registrant, g.p.walletIndex,
      AsU64(user.notAfter), g.p.chainId, g.p.registryAddress, g.crl.root,
      SubjectFields(user.subject, g.p.disclosureMask), g.p.required)
  }

  /** The guest as a function of its input stream: the committed values, or nothing. */
  function Outcome(c: Crypto, s: Serde, buffers: seq<Bytes>, at: nat): Option<PublicValues> {
    match Decode(s, buffers, at)
    case None => None
    case Some(g) =>
      if Accepts(c, g) then Some(Committed(c, g, c.parseCert(g.p.certDer).value)) else None
  }

  lemma OutcomeOfDecoded(c: Crypto, s: Serde, buffers: seq<Bytes>, at: nat, g: GuestInput, user: Cert)
    requires Decode(s, buffers, at) == Some(g) && c.parseCert(g.p.certDer) == Some(user)
    ensures Outcome(c, s, buffers, at) == if Accepts(c, g) then Some(Committed(c, g, user)) else None
  {
  }

  // ---------------------------------------------------------------- the guest's code

  method ParseIntermediates(c: Crypto, ders: seq<Bytes>, ts: i64) returns (r: Option<seq<Cert>>)
    ensures r.Some? <==> AllParse(c, ders) && forall i | 0 <= i < |ders| :: ValidAt(Parsed(c, ders)[i], ts)
    ensures r.Some? ==> r.value == Parsed(c, ders)
  {
    var certs: seq<Cert> := [];
    for i := 0 to |ders|
      invariant |certs| == i
      invariant forall k | 0 <= k < i :: c.parseCert(ders[k]) == Some(certs[k]) && ValidAt(certs[k], ts)
    {
      var parsed := c.parseCert(ders[i]);
      if parsed.None? {
        return None;
      }
      if !ValidAt(parsed.value, ts) {
        assert AllParse(c, ders) ==> Parsed(c, ders)[i] == parsed.value;
        return None;
      }
      certs := certs + [parsed.value];
    }
    assert forall k | 0 <= k < |ders| :: Parsed(c, ders)[k] == certs[k];
    return Some(certs);
  }

  /** The three cases of the guest's chain check amount to the uniform rule. */
  method VerifyChain(verify: Verifier, user: Cert, intermediates: seq<Cert>, rootKey: Bytes) returns (ok: bool)
    ensures ok <==> ChainLinked(verify, user, intermediates, rootKey)
  {
    if intermediates == [] {
      assert SignerKey(intermediates, rootKey, 0) == rootKey;
      return verify(user, rootKey);
    }
    if !verify(user, intermediates[0].key.raw) {
      assert SignerKey(intermediates, rootKey, 0) == intermediates[0].key.raw;
      return false;
    }
    for i := 0 to |intermediates| - 1
      invariant forall k | 0 <= k <= i :: verify(SubjectCert(user, intermediates, k), SignerKey(intermediates, rootKey, k))
    {
      if !verify(intermediates[i], intermediates[i + 1].key.raw) {
        assert SignerKey(intermediates, rootKey, i + 1) == intermediates[i + 1].key.raw;
        return false;
      }
    }
    var last := intermediates[|intermediates| - 1];
    assert SignerKey(intermediates, rootKey, |intermediates|) == rootKey;
    return verify(last, rootKey);
  }

  method GuestMain(c: Crypto, s: Serde, stdin: InputStream) returns (r: Option<PublicValues>)
    modifies stdin`next
    ensures r == Outcome(c, s, stdin.buffers, old(stdin.next))
  {
    var g :- ReadInputs(s, stdin);
    r := VerifyAndCommit(c, g);
  }

  method VerifyAndCommit(c: Crypto, g: GuestInput) returns (r: Option<PublicValues>)
    ensures r.Some? <==> Accepts(c, g)
    ensures r.Some? ==> r.value == Committed(c, g, c.parseCert(g.p.certDer).value)
  {
    if g.p.certChain == [] || g.p.walletIndex >= g.p.maxWallets {
      return None;
    }
    var ts := AsI64(g.p.timestamp);
    var parsed := c.parseCert(g.p.certDer);
    if parsed.None? || !ValidAt(parsed.value, ts) {
      return None;
    }
    var user := parsed.value;
    var rootKey := RootKey(g.p);
    var intermediates := ParseIntermediates(c, IntermediateDers(g.p), ts);
    if intermediates.None? {
      return None;
    }
    var linked := VerifyChain(CertVerifier(c), user, intermediates.value, rootKey);
    if !linked {
      return None;
    }
    if g.p.crlDer != [] {
      var notListed := CheckFullCrl(c, g.p.crlDer, user, intermediates.value, rootKey, ts);
      if !notListed {
        return None;
      }
    }
    var absent := CheckCrlOracle(c.sha256, user.serial, g.crl);
    if !absent {
      return None;
    }
    var ownershipHasher: Bytes := user.serial;
    ownershipHasher := ownershipHasher + g.p.registrant;
    ownershipHasher := ownershipHasher + ToBE(g.p.walletIndex, 4);
    ownershipHasher := ownershipHasher + ToBE(g.p.timestamp, 8);
    ownershipHasher := ownershipHasher + ToBE(g.p.chainId, 8);
    if !VerifyOwnership(c, c.sha256(ownershipHasher), g.p.ownershipSig, user) {
      return None;
    }
    var domainHasher: Bytes := Challenges.NULLIFIER_DOMAIN;
    domainHasher := domainHasher + g.p.registryAddress;
    domainHasher := domainHasher + ToBE(g.p.chainId, 8);
    if !VerifyOwnership(c, c.sha256(domainHasher), g.p.nullifierSig, user) {
      return None;
    }
    var nullifierHasher: Bytes := g.p.nullifierSig;
    nullifierHasher := nullifierHasher + ToBE(g.p.walletIndex, 4);
    var nullifier := c.sha256(nullifierHasher);
    var computedRoot := VerifyMerkleMembership(c.sha256, c.sha256(rootKey), g.p.caMerkleProof);
    if computedRoot != g.p.caMerkleRoot {
      return None;
    }
    var disclosed := DiscloseAndConstrain(user.subject, g.p.disclosureMask, g.p.required);
    if disclosed.None? {
      return None;
    }
    return Some(PublicValues(
      nullifier, g.p.caMerkleRoot, g.p.timestamp, g.p.registrant, g.p.walletIndex, AsU64(user.notAfter),
      g.p.chainId, g.p.registryAddress, g.crl.root, disclosed.value, g.p.required));
  }
}
