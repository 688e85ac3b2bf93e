/** The prover's input stream: what the host writes and the guest reads back, one serialized
    buffer for each field. The serialization library is a parameter. */
module Stdin {
  import opened Outcomes
  import opened Octets

  /** How values of one type are serialized; `read` fails on buffers that do not deserialize. */
  datatype Codec<!T> = Codec(write: T -> Bytes, read: Bytes -> Option<T>)

  /** The law of a serialization library: what was written is read back. */
  ghost predicate RoundTrips<T(!new)>(c: Codec<T>) {
    forall v :: c.read(c.write(v)) == Some(v)
  }

  /** One codec for each type in the stream. */
  datatype Serde = Serde(
    bytes: Codec<Bytes>, chain: Codec<seq<Bytes>>, num64: Codec<u64>, num32: Codec<u32>, mask: Codec<bv8>,
    address: Codec<Address>, hash: Codec<Hash>, hashes: Codec<seq<Hash>>, bools: Codec<seq<bool>>)
  {
    ghost predicate Lawful() {
      && RoundTrips(bytes) && RoundTrips(chain) && RoundTrips(num64) && RoundTrips(num32) && RoundTrips(mask)
      && RoundTrips(address) && RoundTrips(hash) && RoundTrips(hashes) && RoundTrips(bools)
    }
  }

  class InputStream {
    var buffers: seq<Bytes>
    var next: nat

    constructor ()
      ensures buffers == [] && next == 0
    {
      buffers, next := [], 0;
    }

    method Write<T>(codec: Codec<T>, value: T)
      modifies this
      ensures buffers == old(buffers) + [codec.write(value)] && next == old(next)
    {
      buffers := buffers + [codec.write(value)];
    }

    method Read<T>(codec: Codec<T>) returns (v: Option<T>)
      modifies this`next
      ensures v == FieldAt(codec, buffers, old(next))
      ensures v.Some? ==> next == old(next) + 1
    {
      if next >= |buffers| {
        return None;
      }
      v := codec.read(buffers[next]);
      next := next + 1;
    }
  }

  /** The value in one buffer. */
  function FieldAt<T>(codec: Codec<T>, buffers: seq<Bytes>, at: nat): Option<T> {
    if at < |buffers| then codec.read(buffers[at]) else None
  }

  // ---------------------------------------------------------------- parameters

  /** Values the certificate's subject must show; zero asks for nothing. */
  datatype Fields = Fields(country: Hash, org: Hash, orgUnit: Hash, commonName: Hash)

  datatype Params = Params(
    certDer: Bytes, ownershipSig: Bytes, nullifierSig: Bytes, certChain: seq<Bytes>,
    timestamp: u64, crlDer: Bytes, registrant: Address, walletIndex: u32, maxWallets: u32,
    disclosureMask: bv8, required: Fields,
    caMerkleProof: seq<Hash>, caMerkleRoot: Hash, registryAddress: Address, chainId: u64)

  datatype CrlInputs = CrlInputs(
    root: Hash, leftLeaf: Hash, rightLeaf: Hash,
    leftPath: seq<Hash>, leftDirs: seq<bool>, rightPath: seq<Hash>, rightDirs: seq<bool>,
    leftIndex: u32, rightIndex: u32)

  /** CRL checking by Merkle proof switched off. */
  const DISABLED_CRL: CrlInputs := CrlInputs(ZERO, ZERO, ZERO, [], [], [], [], 0, 0)

  datatype GuestInput = GuestInput(p: Params, crl: CrlInputs)

  // ---------------------------------------------------------------- writing

  /** The nine CRL fields, in the order in which the guest reads them. */
  method WriteCrlInputs(s: Serde, stdin: InputStream, c: CrlInputs)
    modifies stdin
    ensures stdin.buffers == old(stdin.buffers) + EncodeCrl(s, c)
    ensures stdin.next == old(stdin.next)
  {
    stdin.Write(s.hash, c.root);
    stdin.Write(s.hash, c.leftLeaf);
    stdin.Write(s.hash, c.rightLeaf);
    stdin.Write(s.hashes, c.leftPath);
    stdin.Write(s.bools, c.leftDirs);
    stdin.Write(s.hashes, c.rightPath);
    stdin.Write(s.bools, c.rightDirs);
    stdin.Write(s.num32, c.leftIndex);
    stdin.Write(s.num32, c.rightIndex);
  }

  method WriteDisabledCrlInputs(s: Serde, stdin: InputStream)
    modifies stdin
    ensures stdin.buffers == old(stdin.buffers) + EncodeCrl(s, DISABLED_CRL)
    ensures stdin.next == old(stdin.next)
  {
    ghost var before := stdin.buffers;
    stdin.Write(s.hash, ZERO);
    stdin.Write(s.hash, ZERO);
    stdin.Write(s.hash, ZERO);
    stdin.Write(s.hashes, []);
    assert stdin.buffers == before + EncodeCrl(s, DISABLED_CRL)[..4];
    stdin.Write(s.bools, []);
    stdin.Write(s.hashes, []);
    stdin.Write(s.bools, []);
    stdin.Write(s.num32, 0);
    stdin.Write(s.num32, 0);
  }

  /** The first nine writes of `build_stdin`. */
  method WriteClaim(s: Serde, stdin: InputStream, p: Params)
    modifies stdin
    ensures stdin.buffers == old(stdin.buffers) + EncodeClaim(s, p)
    ensures stdin.next == old(stdin.next)
  {
    stdin.Write(s.bytes, p.certDer);
    stdin.Write(s.bytes, p.ownershipSig);
    stdin.Write(s.bytes, p.nullifierSig);
    stdin.Write(s.chain, p.certChain);
    stdin.Write(s.num64, p.timestamp);
    stdin.Write(s.bytes, p.crlDer);
    stdin.Write(s.address, p.registrant);
    stdin.Write(s.num32, p.walletIndex);
    stdin.Write(s.num32, p.maxWallets);
  }

  /** The next nine writes of `build_stdin`. */
  method WritePolicy(s: Serde, stdin: InputStream, p: Params)
    modifies stdin
    ensures stdin.buffers == old(stdin.buffers) + EncodePolicy(s, p)
    ensures stdin.next == old(stdin.next)
  {
    stdin.Write(s.mask, p.disclosureMask);
    stdin.Write(s.hash, p.required.country);
    stdin.Write(s.hash, p.required.org);
    stdin.Write(s.hash, p.required.orgUnit);
    stdin.Write(s.hash, p.required.commonName);
    stdin.Write(s.hashes, p.caMerkleProof);
    stdin.Write(s.hash, p.caMerkleRoot);
    stdin.Write(s.address, p.registryAddress);
    stdin.Write(s.num64, p.chainId);
  }

  method BuildStdin(s: Serde, p: Params) returns (stdin: InputStream)
    ensures fresh(stdin) && stdin.next == 0
    ensures stdin.buffers == EncodeParams(s, p) + EncodeCrl(s, DISABLED_CRL)
  {
    stdin := new InputStream();
    WriteClaim(s, stdin, p);
    WritePolicy(s, stdin, p);
    WriteDisabledCrlInputs(s, stdin);
  }

  /** The same with CRL fields of its own instead of the disabled ones. */
  method BuildStdinWithCrl(s: Serde, p: Params, crl: CrlInputs) returns (stdin: InputStream)
    ensures fresh(stdin) && stdin.next == 0
    ensures stdin.buffers == EncodeParams(s, p) + EncodeCrl(s, crl)
  {
    stdin := new InputStream();
    WriteClaim(s, stdin, p);
    WritePolicy(s, stdin, p);
    WriteCrlInputs(s, stdin, crl);
  }

  function EncodeClaim(s: Serde, p: Params): (r: seq<Bytes>)
    ensures |r| == 9
  {
    [s.bytes.write(p.certDer), s.bytes.write(p.ownershipSig), s.bytes.write(p.nullifierSig),
     s.chain.write(p.certChain), s.num64.write(p.timestamp), s.bytes.write(p.crlDer),
     s.address.write(p.registrant), s.num32.write(p.walletIndex), s.num32.write(p.maxWallets)]
  }

  function EncodePolicy(s: Serde, p: Params): (r: seq<Bytes>)
    ensures |r| == 9
  {
    [s.mask.write(p.disclosureMask), s.hash.write(p.required.country), s.hash.write(p.required.org),
     s.hash.write(p.required.orgUnit), s.hash.write(p.required.commonName), s.hashes.write(p.caMerkleProof),
     s.hash.write(p.caMerkleRoot), s.address.write(p.registryAddress), s.num64.write(p.chainId)]
  }

  function EncodeParams(s: Serde, p: Params): (r: seq<Bytes>)
    ensures |r| == 18
  {
    EncodeClaim(s, p) + EncodePolicy(s, p)
  }

  function EncodeCrl(s: Serde, c: CrlInputs): (r: seq<Bytes>)
    ensures |r| == 9
  {
    [s.hash.write(c.root), s.hash.write(c.leftLeaf), s.hash.write(c.rightLeaf),
     s.hashes.write(c.leftPath), s.bools.write(c.leftDirs), s.hashes.write(c.rightPath),
     s.bools.write(c.rightDirs), s.num32.write(c.leftIndex), s.num32.write(c.rightIndex)]
  }

  // ---------------------------------------------------------------- reading

  /** Every field of the first group deserializes. */
  predicate ClaimReadable(s: Serde, f: seq<Bytes>, at: nat) {
    && FieldAt(s.bytes, f, at).Some? && FieldAt(s.bytes, f, at + 1).Some? && FieldAt(s.bytes, f, at + 2).Some?
    && FieldAt(s.chain, f, at + 3).Some? && FieldAt(s.num64, f, at + 4).Some? && FieldAt(s.bytes, f, at + 5).Some?
    && FieldAt(s.address, f, at + 6).Some? && FieldAt(s.num32, f, at + 7).Some? && FieldAt(s.num32, f, at + 8).Some?
  }

  predicate PolicyReadable(s: Serde, f: seq<Bytes>, at: nat) {
    && FieldAt(s.mask, f, at).Some? && FieldAt(s.hash, f, at + 1).Some? && FieldAt(s.hash, f, at + 2).Some?
    && FieldAt(s.hash, f, at + 3).Some? && FieldAt(s.hash, f, at + 4).Some? && FieldAt(s.hashes, f, at + 5).Some?
    && FieldAt(s.hash, f, at + 6).Some? && FieldAt(s.address, f, at + 7).Some? && FieldAt(s.num64, f, at + 8).Some?
  }

  predicate CrlReadable(s: Serde, f: seq<Bytes>, at: nat) {
    && FieldAt(s.hash, f, at).Some? && FieldAt(s.hash, f, at + 1).Some? && FieldAt(s.hash, f, at + 2).Some?
    && FieldAt(s.hashes, f, at + 3).Some? && FieldAt(s.bools, f, at + 4).Some? && FieldAt(s.hashes, f, at + 5).Some?
    && FieldAt(s.bools, f, at + 6).Some? && FieldAt(s.num32, f, at + 7).Some? && FieldAt(s.num32, f, at + 8).Some?
  }

  function DecodeParams(s: Serde, f: seq<Bytes>, at: nat): Params
    requires ClaimReadable(s, f, at) && PolicyReadable(s, f, at + 9)
  {
    Params(
      FieldAt(s.bytes, f, at).value, FieldAt(s.bytes, f, at + 1).value, FieldAt(s.bytes, f, at + 2).value,
      FieldAt(s.chain, f, at + 3).value, FieldAt(s.num64, f, at + 4).value, FieldAt(s.bytes, f, at + 5).value,
      FieldAt(s.address, f, at + 6).value, FieldAt(s.num32, f, at + 7).value, FieldAt(s.num32, f, at + 8).value,
      FieldAt(s.mask, f, at + 9).value,
      Fields(FieldAt(s.hash, f, at + 10).value, FieldAt(s.hash, f, at + 11).value,
             FieldAt(s.hash, f, at + 12).value, FieldAt(s.hash, f, at + 13).value),
      FieldAt(s.hashes, f, at + 14).value, FieldAt(s.hash, f, at + 15).value,
      FieldAt(s.address, f, at + 16).value, FieldAt(s.num64, f, at + 17).value)
  }

  function DecodeCrl(s: Serde, f: seq<Bytes>, at: nat): CrlInputs
    requires CrlReadable(s, f, at)
  {
    CrlInputs(
      FieldAt(s.hash, f, at).value, FieldAt(s.hash, f, at + 1).value, FieldAt(s.hash, f, at + 2).value,
      FieldAt(s.hashes, f, at + 3).value, FieldAt(s.bools, f, at + 4).value, FieldAt(s.hashes, f, at + 5).value,
      FieldAt(s.bools, f, at + 6).value, FieldAt(s.num32, f, at + 7).value, FieldAt(s.num32, f, at + 8).value)
  }

  /** The inputs that the guest reads from position `at`; `None` where a read fails. */
  function Decode(s: Serde, f: seq<Bytes>, at: nat): Option<GuestInput> {
    if ClaimReadable(s, f, at) && PolicyReadable(s, f, at + 9) && CrlReadable(s, f, at + 18)
    then Some(GuestInput(DecodeParams(s, f, at), DecodeCrl(s, f, at + 18)))
    else None
  }

  /** The guest's first eighteen reads. */
  method ReadParams(s: Serde, stdin: InputStream) returns (r: Option<Params>)
    modifies stdin`next
    ensures r.Some? <==>
            ClaimReadable(s, stdin.buffers, old(stdin.next)) && PolicyReadable(s, stdin.buffers, old(stdin.next) + 9)
    ensures r.Some? ==>
              r.value == DecodeParams(s, stdin.buffers, old(stdin.next)) && stdin.next == old(stdin.next) + 18
  {
    var certDer :- stdin.Read(s.bytes);
    var ownershipSig :- stdin.Read(s.bytes);
    var nullifierSig :- stdin.Read(s.bytes);
    var certChain :- stdin.Read(s.chain);
    var timestamp :- stdin.Read(s.num64);
    var crlDer :- stdin.Read(s.bytes);
    var registrant :- stdin.Read(s.address);
    var walletIndex :- stdin.Read(s.num32);
    var maxWallets :- stdin.Read(s.num32);
    var disclosureMask :- stdin.Read(s.mask);
    var country :- stdin.Read(s.hash);
    var org :- stdin.Read(s.hash);
    var orgUnit :- stdin.Read(s.hash);
    var commonName :- stdin.Read(s.hash);
    var caMerkleProof :- stdin.Read(s.hashes);
    var caMerkleRoot :- stdin.Read(s.hash);
    var registryAddress :- stdin.Read(s.address);
    var chainId :- stdin.Read(s.num64);
    return Some(Params(certDer, ownershipSig, nullifierSig, certChain, timestamp, crlDer, registrant,
                       walletIndex, maxWallets, disclosureMask, Fields(country, org, orgUnit, commonName),
                       caMerkleProof, caMerkleRoot, registryAddress, chainId));
  }

  /** The guest's last nine reads. */
  method ReadCrlInputs(s: Serde, stdin: InputStream) returns (r: Option<CrlInputs>)
    modifies stdin`next
    ensures r.Some? <==> CrlReadable(s, stdin.buffers, old(stdin.next))
    ensures r.Some? ==> r.value == DecodeCrl(s, stdin.buffers, old(stdin.next))
  {
    var root :- stdin.Read(s.hash);
    var leftLeaf :- stdin.Read(s.hash);
    var rightLeaf :- stdin.Read(s.hash);
    var leftPath :- stdin.Read(s.hashes);
    var leftDirs :- stdin.Read(s.bools);
    var rightPath :- stdin.Read(s.hashes);
    var rightDirs :- stdin.Read(s.bools);
    var leftIndex :- stdin.Read(s.num32);
    var rightIndex :- stdin.Read(s.num32);
    return Some(CrlInputs(root, leftLeaf, rightLeaf, leftPath, leftDirs, rightPath, rightDirs, leftIndex, rightIndex));
  }

  method ReadInputs(s: Serde, stdin: InputStream) returns (r: Option<GuestInput>)
    modifies stdin`next
    ensures r == Decode(s, stdin.buffers, old(stdin.next))
  {
    var p :- ReadParams(s, stdin);
    var crl :- ReadCrlInputs(s, stdin);
    return Some(GuestInput(p, crl));
  }

  // ---------------------------------------------------------------- reading undoes writing

  /** With a lawful library the guest reads back what the host wrote. */
  lemma HostStreamDecodes(s: Serde, p: Params, crl: CrlInputs)
    requires s.Lawful()
    ensures Decode(s, EncodeParams(s, p) + EncodeCrl(s, crl), 0) == Some(GuestInput(p, crl))
  {
    var f := EncodeParams(s, p) + EncodeCrl(s, crl);
    Nines(EncodeClaim(s, p), EncodePolicy(s, p), EncodeCrl(s, crl));
    ClaimReads(s, f, p);
    PolicyReads(s, f, p);
    CrlReads(s, f, crl);
  }

  lemma Nines(a: seq<Bytes>, b: seq<Bytes>, c: seq<Bytes>)
    requires |a| == |b| == |c| == 9
    ensures forall i | 0 <= i < 9 :: (a + b + c)[i] == a[i]
    ensures forall i | 0 <= i < 9 :: (a + b + c)[9 + i] == b[i]
    ensures forall i | 0 <= i < 9 :: (a + b + c)[18 + i] == c[i]
  {
  }

  lemma ClaimReads(s: Serde, f: seq<Bytes>, p: Params)
    requires s.Lawful() && |f| >= 9
    requires forall i | 0 <= i < 9 :: f[i] == EncodeClaim(s, p)[i]
    ensures ClaimReadable(s, f, 0)
    ensures FieldAt(s.bytes, f, 0) == Some(p.certDer) && FieldAt(s.bytes, f, 1) == Some(p.ownershipSig)
    ensures FieldAt(s.bytes, f, 2) == Some(p.nullifierSig) && FieldAt(s.chain, f, 3) == Some(p.certChain)
    ensures FieldAt(s.num64, f, 4) == Some(p.timestamp) && FieldAt(s.bytes, f, 5) == Some(p.crlDer)
    ensures FieldAt(s.address, f, 6) == Some(p.registrant) && FieldAt(s.num32, f, 7) == Some(p.walletIndex)
    ensures FieldAt(s.num32, f, 8) == Some(p.maxWallets)
  {
    var e := EncodeClaim(s, p);
    assert f[0] == e[0] && f[1] == e[1] && f[2] == e[2] && f[3] == e[3] && f[4] == e[4];
    assert f[5] == e[5] && f[6] == e[6] && f[7] == e[7] && f[8] == e[8];
  }

  lemma PolicyReads(s: Serde, f: seq<Bytes>, p: Params)
    requires s.Lawful() && |f| >= 18
    requires forall i | 0 <= i < 9 :: f[9 + i] == EncodePolicy(s, p)[i]
    ensures PolicyReadable(s, f, 9)
    ensures FieldAt(s.mask, f, 9) == Some(p.disclosureMask) && FieldAt(s.hash, f, 10) == Some(p.required.country)
    ensures FieldAt(s.hash, f, 11) == Some(p.required.org) && FieldAt(s.hash, f, 12) == Some(p.required.orgUnit)
    ensures FieldAt(s.hash, f, 13) == Some(p.required.commonName) && FieldAt(s.hashes, f, 14) == Some(p.caMerkleProof)
    ensures FieldAt(s.hash, f, 15) == Some(p.caMerkleRoot) && FieldAt(s.address, f, 16) == Some(p.registryAddress)
    ensures FieldAt(s.num64, f, 17) == Some(p.chainId)
  {
    var e := EncodePolicy(s, p);
    assert f[9 + 0] == e[0] && f[9 + 1] == e[1] && f[9 + 2] == e[2] && f[9 + 3] == e[3] && f[9 + 4] == e[4];
    assert f[9 + 5] == e[5] && f[9 + 6] == e[6] && f[9 + 7] == e[7] && f[9 + 8] == e[8];
  }

  lemma CrlReads(s: Serde, f: seq<Bytes>, c: CrlInputs)
    requires s.Lawful() && |f| >= 27
    requires forall i | 0 <= i < 9 :: f[18 + i] == EncodeCrl(s, c)[i]
    ensures CrlReadable(s, f, 18) && DecodeCrl(s, f, 18) == c
  {
    var e := EncodeCrl(s, c);
    assert f[18 + 0] == e[0] && f[18 + 1] == e[1] && f[18 + 2] == e[2] && f[18 + 3] == e[3] && f[18 + 4] == e[4];
    assert f[18 + 5] == e[5] && f[18 + 6] == e[6] && f[18 + 7] == e[7] && f[18 + 8] == e[8];
  }

  // ---------------------------------------------------------------- in plain terms

  /** The stream field by field, in the order of `build_stdin`, with the CRL fields behind. */
  lemma StreamExactly(s: Serde, p: Params, c: CrlInputs)
    ensures EncodeParams(s, p) + EncodeCrl(s, c)
         == [s.bytes.write(p.certDer), s.bytes.write(p.ownershipSig), s.bytes.write(p.nullifierSig),
             s.chain.write(p.certChain), s.num64.write(p.timestamp), s.bytes.write(p.crlDer),
             s.address.write(p.registrant), s.num32.write(p.walletIndex), s.num32.write(p.maxWallets),
             s.mask.write(p.disclosureMask), s.hash.write(p.required.country), s.hash.write(p.required.org),
             s.hash.write(p.required.orgUnit), s.hash.write(p.required.commonName),
             s.hashes.write(p.caMerkleProof), s.hash.write(p.caMerkleRoot),
             s.address.write(p.registryAddress), s.num64.write(p.chainId),
             s.hash.write(c.root), s.hash.write(c.leftLeaf), s.hash.write(c.rightLeaf),
             s.hashes.write(c.leftPath), s.bools.write(c.leftDirs), s.hashes.write(c.rightPath),
             s.bools.write(c.rightDirs), s.num32.write(c.leftIndex), s.num32.write(c.rightIndex)]
  {
  }

  /** The disabled fields: three zero hashes, four empty lists, two zero indices. */
  lemma DisabledExactly(i: nat)
    requires i < 32
    ensures DISABLED_CRL.root[i] == DISABLED_CRL.leftLeaf[i] == DISABLED_CRL.rightLeaf[i] == 0
    ensures DISABLED_CRL.leftPath == DISABLED_CRL.rightPath == [] && DISABLED_CRL.leftDirs == DISABLED_CRL.rightDirs == []
    ensures DISABLED_CRL.leftIndex == DISABLED_CRL.rightIndex == 0
  {
  }
}
