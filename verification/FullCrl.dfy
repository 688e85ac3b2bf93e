/** The guest's check of a whole revocation list in DER, and which serial numbers it recognizes. */
module FullCrl {
  import opened Outcomes
  import opened Octets
  import opened Der
  import opened EcdsaSig
  import opened Signatures

  // ---------------------------------------------------------------- specification

  /** The first certificate with that subject. */
  function FirstNamed(certs: seq<Cert>, name: Name): Option<Cert> {
    if |certs| == 0 then None
    else if certs[0].subjectName == name then Some(certs[0])
    else FirstNamed(certs[1..], name)
  }

  /** The key under which a list of that issuer is checked. */
  function CrlKey(intermediates: seq<Cert>, rootKey: Bytes, issuer: Name): Bytes {
    match FirstNamed(intermediates, issuer)
    case Some(cert) => cert.key.raw
    case None => rootKey
  }

  predicate Current(crl: Crl, ts: i64) {
    crl.thisUpdate <= ts && (crl.nextUpdate.Some? ==> ts <= crl.nextUpdate.value)
  }

  /** The list is the certificate issuer's, in date, and signed under this key. */
  predicate SignedList(c: Crypto, crl: Crl, user: Cert, key: Bytes, ts: i64) {
    && crl.issuerName == user.issuerName
    && Current(crl, ts)
    && VerifySignature(c, crl.tbs, crl.signature, crl.sigAlgOid, key)
  }

  predicate FullCrlAccepts(c: Crypto, crlDer: Bytes, user: Cert, intermediates: seq<Cert>, rootKey: Bytes, ts: i64) {
    match c.parseCrl(crlDer)
    case None => false
    case Some(crl) =>
      SignedList(c, crl, user, CrlKey(intermediates, rootKey, crl.issuerName), ts) && user.serial !in crl.revoked
  }

  // ---------------------------------------------------------------- the guest's code

  method FindIssuer(intermediates: seq<Cert>, name: Name) returns (r: Option<Cert>)
    ensures r == FirstNamed(intermediates, name)
    ensures r.None? <==> forall cert | cert in intermediates :: cert.subjectName != name
  {
    assert intermediates[0..] == intermediates;
    for i := 0 to |intermediates|
      invariant FirstNamed(intermediates[i..], name) == FirstNamed(intermediates, name)
      invariant forall k | 0 <= k < i :: intermediates[k].subjectName != name
    {
      if intermediates[i].subjectName == name {
        return Some(intermediates[i]);
      }
      assert intermediates[i..][1..] == intermediates[i + 1..];
    }
    return None;
  }

  method CheckFullCrl(c: Crypto, crlDer: Bytes, user: Cert, intermediates: seq<Cert>, rootKey: Bytes, ts: i64)
    returns (ok: bool)
    ensures ok <==> FullCrlAccepts(c, crlDer, user, intermediates, rootKey, ts)
  {
    var parsed := c.parseCrl(crlDer);
    if parsed.None? {
      return false;
    }
    var crl := parsed.value;
    if crl.issuerName != user.issuerName {
      return false;
    }
    if !(crl.thisUpdate <= ts) {
      return false;
    }
    if crl.nextUpdate.Some? && !(ts <= crl.nextUpdate.value) {
      return false;
    }
    var issuer := FindIssuer(intermediates, crl.issuerName);
    var signed: bool;
    if issuer.Some? {
      signed := VerifySignature(c, crl.tbs, crl.signature, crl.sigAlgOid, issuer.value.key.raw);
    } else {
      signed := VerifySignature(c, crl.tbs, crl.signature, crl.sigAlgOid, rootKey);
    }
    if !signed {
      return false;
    }
    for i := 0 to |crl.revoked|
      invariant user.serial !in crl.revoked[..i]
    {
      if user.serial == crl.revoked[i] {
        return false;
      }
    }
    return true;
  }

  // ---------------------------------------------------------------- whose key

  /** Certificate `i` is the first with that subject. */
  ghost predicate IsFirstNamed(certs: seq<Cert>, name: Name, i: nat) {
    && i < |certs| && certs[i].subjectName == name
    && forall j | 0 <= j < i :: certs[j].subjectName != name
  }

  ghost predicate Unnamed(certs: seq<Cert>, name: Name) {
    forall j | 0 <= j < |certs| :: certs[j].subjectName != name
  }

  lemma {:induction false} FirstNamedIs(certs: seq<Cert>, name: Name, i: nat)
    ensures IsFirstNamed(certs, name, i) ==> FirstNamed(certs, name) == Some(certs[i])
    ensures FirstNamed(certs, name).None? <==> Unnamed(certs, name)
    decreases |certs|
  {
    if certs != [] && certs[0].subjectName != name {
      var rest := certs[1..];
      FirstNamedIs(rest, name, if i == 0 then 0 else i - 1);
      if IsFirstNamed(certs, name, i) {
        assert forall j | 0 <= j < i - 1 :: rest[j] == certs[j + 1];
        assert IsFirstNamed(rest, name, i - 1);
      }
      assert Unnamed(certs, name) <==> Unnamed(rest, name) by {
        assert forall j | 0 < j < |certs| :: certs[j] == rest[j - 1];
      }
    }
  }

  lemma SomeFirstNamed(certs: seq<Cert>, name: Name) returns (i: nat)
    requires !Unnamed(certs, name)
    ensures IsFirstNamed(certs, name, i)
  {
    i := 0;
    while certs[i].subjectName != name
      invariant i < |certs| && forall j | 0 <= j < i :: certs[j].subjectName != name
      decreases |certs| - i
    {
      i := i + 1;
    }
  }

  /** The key that signs the user certificate in the guest's chain. */
  function IssuerKey(intermediates: seq<Cert>, rootKey: Bytes): Bytes {
    if intermediates == [] then rootKey else intermediates[0].key.raw
  }

  /** The chain is checked by signatures alone and the key for the list is chosen by name alone.
      Exactly when both lead to one key: there are no intermediates; or the first one named as the
      certificate's issuer has the key of the first one of all; or none is named so, and the root
      key is that of the first one. */
  lemma ListKeyIsIssuersExactly(user: Cert, intermediates: seq<Cert>, rootKey: Bytes)
    ensures CrlKey(intermediates, rootKey, user.issuerName) == IssuerKey(intermediates, rootKey)
        <==> || intermediates == []
             || (exists i: nat :: IsFirstNamed(intermediates, user.issuerName, i)
                             && intermediates[i].key.raw == intermediates[0].key.raw)
             || (Unnamed(intermediates, user.issuerName) && rootKey == intermediates[0].key.raw)
  {
    FirstNamedIs(intermediates, user.issuerName, 0);
    if !Unnamed(intermediates, user.issuerName) {
      var i := SomeFirstNamed(intermediates, user.issuerName);
      forall j | IsFirstNamed(intermediates, user.issuerName, j) ensures j == i {
      }
      FirstNamedIs(intermediates, user.issuerName, i);
    }
  }

  /** No later key of the chain is that of the first intermediate. */
  ghost predicate IssuerKeyIsOwn(intermediates: seq<Cert>, rootKey: Bytes) {
    intermediates != [] ==>
      && rootKey != intermediates[0].key.raw
      && forall i | 0 < i < |intermediates| :: intermediates[i].key.raw != intermediates[0].key.raw
  }

  /** In a chain where the issuer's key is nobody else's, exactly when the first intermediate, if
      there is one, is named as the certificate's issuer. */
  lemma ListKeyIsIssuersByName(user: Cert, intermediates: seq<Cert>, rootKey: Bytes)
    requires IssuerKeyIsOwn(intermediates, rootKey)
    ensures CrlKey(intermediates, rootKey, user.issuerName) == IssuerKey(intermediates, rootKey)
        <==> intermediates == [] || intermediates[0].subjectName == user.issuerName
  {
    ListKeyIsIssuersExactly(user, intermediates, rootKey);
    if intermediates != [] && intermediates[0].subjectName == user.issuerName {
      assert IsFirstNamed(intermediates, user.issuerName, 0);
    }
  }

  // ---------------------------------------------------------------- which serials

  /** `BigUint::to_bytes_be`: no leading zero, and one zero byte for zero. */
  function BigEndian(n: nat): Bytes {
    if n == 0 then [0] else MinimalBE(n)
  }

  /** The highest of its bytes has its highest bit set. */
  predicate HighBit(n: nat) {
    n > 0 && MinimalBE(n)[0] >= 0x80
  }

  /** The content octets of the INTEGERs in a list's entries. */
  function EntryOctets(listed: seq<nat>): (r: seq<Bytes>)
    ensures |r| == |listed|
    ensures forall i | 0 <= i < |r| :: r[i] == UnsignedContent(listed[i])
  {
    seq(|listed|, i requires 0 <= i < |listed| => UnsignedContent(listed[i]))
  }

  /** The certificate's serial is compared without the zero byte that the entry has before a high
      bit, so the two spell the same exactly for the same number without a high bit. */
  lemma SerialMatchesEntry(n: nat, m: nat)
    ensures BigEndian(n) == UnsignedContent(m) <==> n == m && !HighBit(n)
  {
    MinimalBEValue(n);
    MinimalBEValue(m);
    FromBELeadingZero(MinimalBE(m));
    if BigEndian(n) == UnsignedContent(m) {
      ZeroByte();
      assert FromBE(BigEndian(n)) == n && FromBE(UnsignedContent(m)) == m;
    }
  }

  lemma ZeroByte()
    ensures FromBE([0]) == 0
  {
    FromBESnoc([], 0);
    assert [] + [0] == [0];
  }

  /** So the check recognizes exactly the listed serial numbers without a high bit. */
  lemma RecognizedExactly(n: nat, listed: seq<nat>)
    ensures BigEndian(n) in EntryOctets(listed) <==> n in listed && !HighBit(n)
  {
    forall m | m in listed ensures BigEndian(n) == UnsignedContent(m) <==> n == m && !HighBit(n) {
      SerialMatchesEntry(n, m);
    }
    if n in listed {
      var i :| 0 <= i < |listed| && listed[i] == n;
      assert EntryOctets(listed)[i] == UnsignedContent(n);
    }
  }

  /** 128 is such a number: it is listed as two octets and compared as one. */
  lemma HighBitExample()
    ensures HighBit(128) && BigEndian(128) == [0x80] && UnsignedContent(128) == [0x00, 0x80]
  {
    assert MinimalBE(128) == MinimalBE(0) + [0x80];
  }

  /** The octets of a serial number: its value, without a leading zero, and a zero for zero. */
  lemma BigEndianExactly(n: nat)
    ensures BigEndian(n) != [] && FromBE(BigEndian(n)) == n
    ensures BigEndian(n)[0] == 0 ==> BigEndian(n) == [0]
  {
    MinimalBEValue(n);
    ZeroByte();
  }
}
