/** The guest's two readers of an EC SubjectPublicKeyInfo (section 2 of RFC 5480). A failed
    assertion or slice is `None`; additions wrap like the guest's `usize`. */
module Spki {
  import opened Outcomes
  import opened Octets
  import opened Der

  const MIN_SPKI_LEN := 24

  /** `&data[from..to]`, which panics unless from <= to <= len. */
  function Slice(data: Bytes, from: nat, to: nat): Option<Bytes> {
    if from <= to <= |data| then Some(data[from..to]) else None
  }

  /** `&data[from..]`. */
  function SliceFrom(data: Bytes, from: nat): Option<Bytes> {
    if from <= |data| then Some(data[from..]) else None
  }

  /** Expect a tag and read the length after it. */
  function TagAndLength(data: Bytes, tag: byte): Option<(nat, nat)> {
    if data == [] || data[0] != tag then None else ReadLength(data[1..])
  }

  /** Everything after the header of a leading element. */
  function Enter(data: Bytes, tag: byte): Option<Bytes> {
    var head :- TagAndLength(data, tag);
    SliceFrom(data, Wrap64(1 + head.1))
  }

  /** The content of a leading element. */
  function Content(data: Bytes, tag: byte): Option<Bytes> {
    var head :- TagAndLength(data, tag);
    Slice(data, Wrap64(1 + head.1), Wrap64(1 + head.1 + head.0))
  }

  /** Everything after a leading element. */
  function After(data: Bytes, tag: byte): Option<Bytes> {
    var head :- TagAndLength(data, tag);
    SliceFrom(data, Wrap64(1 + head.1 + head.0))
  }

  function ExtractCurveOid(spki: Bytes): Option<Bytes> {
    var inner :- Enter(spki, 0x30);
    var alg :- Content(inner, 0x30);
    var afterOid :- After(alg, 0x06);
    Content(afterOid, 0x06)
  }

  function ExtractEcPoint(spki: Bytes): Option<Bytes> {
    if |spki| < MIN_SPKI_LEN then None
    else
      var inner :- Enter(spki, 0x30);
      var bits :- After(inner, 0x30);
      var content :- Content(bits, 0x03);
      if content == [] || content[0] != 0x00 then None else Some(content[1..])
  }

  // ---------------------------------------------------------------- construction

  /** SEQUENCE { SEQUENCE { OID, OID }, BIT STRING } with no unused bits. */
  function EcSpki(algOid: Bytes, curveOid: Bytes, point: Bytes): Bytes
    requires |algOid| + |curveOid| + |point| < 0x8000_0000_0000_0000
  {
    Tlv(0x30, Tlv(0x30, Tlv(0x06, algOid) + Tlv(0x06, curveOid)) + Tlv(0x03, [0x00] + point))
  }

  // ---------------------------------------------------------------- round trip

  /** Reading an element that some bytes follow. */
  lemma LeadingTlv(tag: byte, value: Bytes, rest: Bytes)
    requires |value| + 10 < U64
    ensures Enter(Tlv(tag, value) + rest, tag) == Some(value + rest)
    ensures Content(Tlv(tag, value) + rest, tag) == Some(value)
    ensures After(Tlv(tag, value) + rest, tag) == Some(rest)
  {
    var data := Tlv(tag, value) + rest;
    var c := |LengthOctets(|value|)|;
    assert data[1..] == LengthOctets(|value|) + (value + rest);
    LengthRoundTrip(|value|, value + rest);
    assert data[1 + c..] == value + rest;
    assert data[1 + c..1 + c + |value|] == value;
    assert data[1 + c + |value|..] == rest;
  }

  /** A whole element. */
  lemma WholeTlv(tag: byte, value: Bytes)
    requires |value| + 10 < U64
    ensures Enter(Tlv(tag, value), tag) == Some(value)
    ensures Content(Tlv(tag, value), tag) == Some(value)
  {
    LeadingTlv(tag, value, []);
    assert Tlv(tag, value) + [] == Tlv(tag, value);
    assert value + [] == value;
  }

  /** No assertion or slice fails, and exactly the curve comes back. */
  lemma CurveRoundTrip(algOid: Bytes, curveOid: Bytes, point: Bytes)
    requires |algOid| + |curveOid| + |point| < 0x8000_0000_0000_0000
    ensures ExtractCurveOid(EcSpki(algOid, curveOid, point)) == Some(curveOid)
  {
    var oids := Tlv(0x06, algOid) + Tlv(0x06, curveOid);
    var bits := Tlv(0x03, [0x00] + point);
    WholeTlv(0x30, Tlv(0x30, oids) + bits);
    LeadingTlv(0x30, oids, bits);
    LeadingTlv(0x06, algOid, Tlv(0x06, curveOid));
    WholeTlv(0x06, curveOid);
  }

  /** The same for the point, of every key that meets the reader's minimum length. */
  lemma PointRoundTrip(algOid: Bytes, curveOid: Bytes, point: Bytes)
    requires |algOid| + |curveOid| + |point| < 0x8000_0000_0000_0000
    ensures ExtractEcPoint(EcSpki(algOid, curveOid, point))
         == if |EcSpki(algOid, curveOid, point)| >= MIN_SPKI_LEN then Some(point) else None
  {
    var oids := Tlv(0x06, algOid) + Tlv(0x06, curveOid);
    var content := [0x00] + point;
    WholeTlv(0x30, Tlv(0x30, oids) + Tlv(0x03, content));
    LeadingTlv(0x30, oids, Tlv(0x03, content));
    WholeTlv(0x03, content);
    assert content[1..] == point;
  }

  // ---------------------------------------------------------------- in plain terms

  /** An element with tag, a length form of `c` octets that reads as `n`, and the rest. */
  predicate Begins(data: Bytes, tag: byte, n: nat, c: nat) {
    data != [] && data[0] == tag && ReadLength(data[1..]) == Some((n, c))
  }

  /** The content is read exactly where the tag is right and the length ends inside the data. */
  lemma ContentExactly(data: Bytes, tag: byte, n: nat, c: nat)
    requires |data| < 0x8000_0000_0000_0000 && Begins(data, tag, n, c)
    ensures Content(data, tag) == if 1 + c + n <= |data| then Some(data[1 + c..1 + c + n]) else None
  {
    if 1 + c + n >= U64 {
      WrapsBelow(1 + c, n);
    }
  }

  /** A sum that wraps ends before it began. */
  lemma WrapsBelow(from: nat, n: nat)
    requires from + n >= U64 && from < U64 && n < U64
    ensures Wrap64(from + n) < from
  {
    assert Wrap64(from + n) == Wrap64(from + n - U64);
  }

  /** What follows a header, and what follows an element, for lengths that do not wrap. */
  lemma EnterAndAfterExactly(data: Bytes, tag: byte, n: nat, c: nat)
    requires |data| < 0x8000_0000_0000_0000 && Begins(data, tag, n, c) && 1 + c + n < U64
    ensures Enter(data, tag) == Some(data[1 + c..])
    ensures After(data, tag) == if 1 + c + n <= |data| then Some(data[1 + c + n..]) else None
  {
  }

  /** Another tag, or a length that is cut off, is refused. */
  lemma RefusedExactly(data: Bytes, tag: byte)
    requires data == [] || data[0] != tag || ReadLength(data[1..]).None?
    ensures Enter(data, tag).None? && Content(data, tag).None? && After(data, tag).None?
  {
  }

  /** A bit string with unused bits, and a key of fewer than 24 bytes, are refused. */
  lemma PointRefused(algorithm: Bytes, unused: byte, point: Bytes, short: Bytes)
    requires |algorithm| + |point| < 0x4000_0000_0000_0000
    requires unused != 0 && |short| < 24
    ensures ExtractEcPoint(Tlv(0x30, Tlv(0x30, algorithm) + Tlv(0x03, [unused] + point))).None?
    ensures ExtractEcPoint(Tlv(0x30, Tlv(0x30, algorithm) + Tlv(0x03, []))).None?
    ensures ExtractEcPoint(short).None?
  {
    BitString(algorithm, [unused] + point);
    BitString(algorithm, []);
  }

  /** The reader gets to the bit string of a key, whatever its algorithm. */
  lemma BitString(algorithm: Bytes, content: Bytes)
    requires |algorithm| + |content| < 0x8000_0000_0000_0000
    ensures var spki := Tlv(0x30, Tlv(0x30, algorithm) + Tlv(0x03, content));
            ExtractEcPoint(spki) == if |spki| < MIN_SPKI_LEN || content == [] || content[0] != 0 then None else Some(content[1..])
  {
    WholeTlv(0x30, Tlv(0x30, algorithm) + Tlv(0x03, content));
    LeadingTlv(0x30, algorithm, Tlv(0x03, content));
    WholeTlv(0x03, content);
  }

  lemma ShortTlv(tag: byte, value: Bytes)
    requires |value| < 0x80
    ensures Tlv(tag, value) == [tag, |value|] + value
  {
    assert LengthOctets(|value|) == [|value|];
  }

  /** A short key in octets, for short identifiers. */
  lemma ShortKey(alg: Bytes, curve: Bytes, point: Bytes, oids: nat, body: nat)
    requires oids == |alg| + |curve| + 4 && body == oids + |point| + 5 && body < 0x80
    ensures EcSpki(alg, curve, point)
         == [0x30, body] + ([0x30, oids] + ([0x06, |alg|] + alg + ([0x06, |curve|] + curve))
                            + ([0x03, |point| + 1] + ([0x00] + point)))
  {
    ShortTlv(0x06, alg);
    ShortTlv(0x06, curve);
    ShortTlv(0x30, Tlv(0x06, alg) + Tlv(0x06, curve));
    ShortTlv(0x03, [0x00] + point);
    ShortTlv(0x30, Tlv(0x30, Tlv(0x06, alg) + Tlv(0x06, curve)) + Tlv(0x03, [0x00] + point));
  }

  /** An uncompressed P-256 key in octets, for identifiers of 7 and 8 and a point of 65 octets. */
  lemma P256KeyExactly(alg: Bytes, curve: Bytes, point: Bytes)
    requires |alg| == 7 && |curve| == 8 && |point| == 65
    ensures EcSpki(alg, curve, point)
         == [0x30, 0x59, 0x30, 0x13, 0x06, 0x07] + alg + [0x06, 0x08] + curve + [0x03, 0x42, 0x00] + point
  {
    ShortKey(alg, curve, point, 0x13, 0x59);
    Regroup(alg, curve, point);
  }

  lemma Regroup(alg: Bytes, curve: Bytes, point: Bytes)
    ensures [0x30, 0x59] + ([0x30, 0x13] + ([0x06, 0x07] + alg + ([0x06, 0x08] + curve)) + ([0x03, 0x42] + ([0x00] + point)))
         == [0x30, 0x59, 0x30, 0x13, 0x06, 0x07] + alg + [0x06, 0x08] + curve + [0x03, 0x42, 0x00] + point
  {
    var left, right := [0x30, 0x59, 0x30, 0x13, 0x06, 0x07] + alg + [0x06, 0x08] + curve, [0x03, 0x42, 0x00] + point;
    assert [0x30, 0x59] + ([0x30, 0x13] + ([0x06, 0x07] + alg + ([0x06, 0x08] + curve))) == left;
    assert [0x03, 0x42] + ([0x00] + point) == right;
  }
}
