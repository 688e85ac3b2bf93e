/** Turning a raw ECDSA signature (r and s side by side) into the DER form that the guest's
    signature libraries read: a SEQUENCE of two INTEGERs (section 2.2.3 of RFC 3279). */
module EcdsaSig {
  import opened Outcomes
  import opened Octets
  import opened Der

  datatype SigError = InvalidLength

  // ---------------------------------------------------------------- encoder

  /** INTEGER with the given unsigned big-endian value (section 8.3 of X.690). */
  method EncodeInteger(val: Bytes) returns (encoded: Bytes)
    requires |val| + 1 < U64
    ensures |UnsignedContent(FromBE(val))| <= |val| + 1
    ensures encoded == Tlv(0x02, UnsignedContent(FromBE(val)))
  {
    ContentLength(val);
    StripIsMinimal(val);
    if val == [] {
      return [0x02, 0x01, 0x00];
    }
    var firstNonZero := FirstNonZero(val);
    var stripped := if firstNonZero.Some? then firstNonZero.value else |val| - 1;
    var digits := val[stripped..];
    if firstNonZero.None? {
      AllZeroLast(val);
    }
    var needsPadding := digits[0] >= 0x80;
    var contentLen := |digits| + if needsPadding then 1 else 0;
    encoded := [0x02];
    encoded := EncodeDerLength(encoded, contentLen);
    if needsPadding {
      encoded := encoded + [0x00];
    }
    encoded := encoded + digits;
    assert encoded == [0x02] + LengthOctets(contentLen) + UnsignedContent(FromBE(val));
  }

  lemma {:induction false} AllZeroLast(b: Bytes)
    requires b != [] && Strip(b) == []
    ensures b[|b| - 1..] == [0]
  {
    if |b| > 1 {
      AllZeroLast(b[1..]);
      assert b[1..][|b| - 2..] == b[|b| - 1..];
    }
  }

  /** The conversion, and what a strict reader makes of its result. */
  method P1363ToDer(p1363: Bytes) returns (r: Result<Bytes, SigError>)
    requires |p1363| < 0x8000_0000_0000_0000
    ensures r.Err? <==> p1363 == [] || |p1363| % 2 != 0
    ensures r.Ok? ==> Fits(FromBE(p1363[..|p1363| / 2]), FromBE(p1363[|p1363| / 2..]))
    ensures r.Ok? ==> r.value == SignatureDer(FromBE(p1363[..|p1363| / 2]), FromBE(p1363[|p1363| / 2..]))
    ensures r.Ok? ==> ParseSignature(r.value) == Some((FromBE(p1363[..|p1363| / 2]), FromBE(p1363[|p1363| / 2..])))
  {
    r := Convert(p1363);
    if r.Ok? {
      SignatureRoundTrip(FromBE(p1363[..|p1363| / 2]), FromBE(p1363[|p1363| / 2..]));
    }
  }

  /** The steps of `p1363_to_der`. */
  method Convert(p1363: Bytes) returns (r: Result<Bytes, SigError>)
    requires |p1363| < 0x8000_0000_0000_0000
    ensures r.Err? <==> p1363 == [] || |p1363| % 2 != 0
    ensures r.Ok? ==> Fits(FromBE(p1363[..|p1363| / 2]), FromBE(p1363[|p1363| / 2..]))
    ensures r.Ok? ==> r.value == SignatureDer(FromBE(p1363[..|p1363| / 2]), FromBE(p1363[|p1363| / 2..]))
  {
    if p1363 == [] || |p1363| % 2 != 0 {
      return Err(InvalidLength);
    }
    var half := |p1363| / 2;
    var r', s := p1363[..half], p1363[half..];
    var der := EncodePair(r', s);
    return Ok(der);
  }

  /** Both INTEGERs in their SEQUENCE. */
  method EncodePair(r: Bytes, s: Bytes) returns (der: Bytes)
    requires |r| < 0x4000_0000_0000_0000 && |s| < 0x4000_0000_0000_0000
    ensures Fits(FromBE(r), FromBE(s)) && der == SignatureDer(FromBE(r), FromBE(s))
  {
    ContentLength(r);
    ContentLength(s);
    var rEnc := EncodeInteger(r);
    var sEnc := EncodeInteger(s);
    var totalLen := |rEnc| + |sEnc|;
    der := [0x30];
    der := EncodeDerLength(der, totalLen);
    der := der + rEnc;
    der := der + sEnc;
    assert der == [0x30] + LengthOctets(totalLen) + (rEnc + sEnc);
  }

  // ---------------------------------------------------------------- specification

  /** Content octets of a non-negative INTEGER: minimal, with a zero in front of a high bit. */
  function UnsignedContent(n: nat): (c: Bytes)
    ensures c != []
  {
    var digits := MinimalBE(n);
    if digits == [] then [0]
    else if digits[0] >= 0x80 then [0] + digits
    else digits
  }

  predicate Fits(r: nat, s: nat) {
    && |UnsignedContent(r)| < U64
    && |UnsignedContent(s)| < U64
    && |Tlv(0x02, UnsignedContent(r)) + Tlv(0x02, UnsignedContent(s))| < U64
  }

  function SignatureDer(r: nat, s: nat): Bytes
    requires Fits(r, s)
  {
    var body := Tlv(0x02, UnsignedContent(r)) + Tlv(0x02, UnsignedContent(s));
    Tlv(0x30, body)
  }

  lemma ContentLength(half: Bytes)
    ensures |UnsignedContent(FromBE(half))| <= |half| + 1
  {
    MinimalBEShortest(half);
  }

  // ---------------------------------------------------------------- reference decoder

  /** Two's complement, the meaning of INTEGER content octets. */
  function TwosComplement(c: Bytes): int {
    if c != [] && c[0] >= 0x80 then FromBE(c) - Pow256(|c|) else FromBE(c)
  }

  /** The first nine bits are not all alike (section 8.3.2 of X.690). */
  predicate IsMinimalInteger(c: Bytes) {
    && c != []
    && (|c| > 1 && c[0] == 0 ==> c[1] >= 0x80)
    && (|c| > 1 && c[0] == 0xff ==> c[1] < 0x80)
  }

  /** A strict DER element with the given tag: its content and what follows. */
  function ParseTlv(tag: byte, b: Bytes): (r: Option<(Bytes, Bytes)>)
    ensures r.Some? ==> |r.value.1| < |b|
  {
    if b == [] || b[0] != tag then None
    else
      match ReadLength(b[1..])
      case None => None
      case Some((n, c)) =>
        if 1 + c + n <= |b| && b[1..1 + c] == LengthOctets(n)
        then Some((b[1 + c..1 + c + n], b[1 + c + n..]))
        else None
  }

  function ParseInteger(b: Bytes): Option<(int, Bytes)> {
    match ParseTlv(0x02, b)
    case None => None
    case Some((content, rest)) =>
      if IsMinimalInteger(content) then Some((TwosComplement(content), rest)) else None
  }

  /** A strict reader of ECDSA-Sig-Value: both integers, and nothing left over anywhere. */
  function ParseSignature(b: Bytes): Option<(int, int)> {
    match ParseTlv(0x30, b)
    case None => None
    case Some((body, trailing)) =>
      if trailing != [] then None
      else
        match ParseInteger(body)
        case None => None
        case Some((r, rest)) =>
          match ParseInteger(rest)
          case None => None
          case Some((s, end)) => if end == [] then Some((r, s)) else None
  }

  // ---------------------------------------------------------------- the encoder is correct

  lemma ParseTlvRoundTrip(tag: byte, content: Bytes, rest: Bytes)
    requires |content| < U64
    ensures ParseTlv(tag, Tlv(tag, content) + rest) == Some((content, rest))
  {
    var header := LengthOctets(|content|);
    var b := Tlv(tag, content) + rest;
    assert b[1..] == header + (content + rest);
    LengthRoundTrip(|content|, content + rest);
    assert b[1..1 + |header|] == header;
    assert b[1 + |header|..1 + |header| + |content|] == content;
    assert b[1 + |header| + |content|..] == rest;
  }

  /** The content octets are minimal and mean the value, which is therefore not negative. */
  lemma UnsignedContentMeans(n: nat)
    ensures IsMinimalInteger(UnsignedContent(n))
    ensures TwosComplement(UnsignedContent(n)) == n
  {
    MinimalBEValue(n);
    FromBELeadingZero(MinimalBE(n));
    if n == 0 {
      FromBESnoc([], 0);
      assert [] + [0] == [0];
    }
  }

  lemma IntegerRoundTrip(n: nat, rest: Bytes)
    requires |UnsignedContent(n)| < U64
    ensures ParseInteger(Tlv(0x02, UnsignedContent(n)) + rest) == Some((n, rest))
  {
    ParseTlvRoundTrip(0x02, UnsignedContent(n), rest);
    UnsignedContentMeans(n);
  }

  /** Strict parsing of the signature gives back both values and consumes everything. */
  lemma SignatureRoundTrip(r: nat, s: nat)
    requires Fits(r, s)
    ensures ParseSignature(SignatureDer(r, s)) == Some((r, s))
  {
    var rTlv, sTlv := Tlv(0x02, UnsignedContent(r)), Tlv(0x02, UnsignedContent(s));
    assert SignatureDer(r, s) + [] == SignatureDer(r, s);
    ParseTlvRoundTrip(0x30, rTlv + sTlv, []);
    IntegerRoundTrip(r, sTlv);
    assert sTlv + [] == sTlv;
    IntegerRoundTrip(s, []);
  }

  /** The signature in octets: a SEQUENCE (tag 30) of two INTEGERs (tag 02). */
  lemma SignatureDerExactly(r: nat, s: nat)
    requires Fits(r, s)
    ensures var a, b := UnsignedContent(r), UnsignedContent(s);
            SignatureDer(r, s)
            == [0x30] + LengthOctets(|[0x02] + LengthOctets(|a|) + a + ([0x02] + LengthOctets(|b|) + b)|)
               + ([0x02] + LengthOctets(|a|) + a + ([0x02] + LengthOctets(|b|) + b))
  {
  }
}
