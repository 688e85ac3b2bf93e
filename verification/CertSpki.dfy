/** The browser's walk through an X.509 certificate to its SubjectPublicKeyInfo
    (section 4.1 of RFC 5280), with JavaScript's 32-bit shifts and forgiving indexing. */
module CertSpki {
  import opened Outcomes
  import opened Octets
  import opened Der

  datatype DerError = UnexpectedEnd | LengthBytesExceedData | ValueExceedsData

  datatype Tl = Tl(valueOffset: int, valueLength: int, totalLength: int)

  // ---------------------------------------------------------------- JavaScript

  /** Conversion to a signed 32-bit integer. */
  function ToInt32(n: int): (r: int)
    ensures -0x8000_0000 <= r < 0x8000_0000
    ensures 0 <= n < 0x8000_0000 ==> r == n
  {
    var m := n % 0x1_0000_0000;
    if m >= 0x8000_0000 then m - 0x1_0000_0000 else m
  }

  /** `(acc << 8) | b` on 32-bit integers is the reduction of the wide value. */
  lemma ShiftIn32(x: nat, b: byte)
    ensures ToInt32(ToInt32(x) * 256) + b == ToInt32(x * 256 + b)
  {
    var j := (x - ToInt32(x)) / 0x1_0000_0000;
    assert x == ToInt32(x) + j * 0x1_0000_0000;
    Periodic32(ToInt32(x) * 256, 256 * j);
    LowByte32(x, b);
  }

  lemma Periodic32(y: int, k: int)
    ensures ToInt32(y + k * 0x1_0000_0000) == ToInt32(y)
  {
  }

  lemma LowByte32(x: int, b: byte)
    ensures ToInt32(x * 256) + b == ToInt32(x * 256 + b)
  {
    var m := x % 0x100_0000;
    var k := x / 0x100_0000;
    assert x * 256 == m * 256 + k * 0x1_0000_0000;
    Periodic32(m * 256, k);
    Periodic32(m * 256 + b, k);
  }

  /** `array[i]`: undefined outside the array. */
  function At(data: Bytes, i: int): Option<byte> {
    if 0 <= i < |data| then Some(data[i]) else None
  }

  function ClampIndex(i: int, len: nat): (r: nat)
    ensures r <= len
  {
    if i < 0 then (if i + len < 0 then 0 else i + len)
    else if i > len then len else i
  }

  /** `slice(start, end)`: negative indices count from the end. */
  function JsSlice(data: Bytes, start: int, end: int): Bytes {
    var from, to := ClampIndex(start, |data|), ClampIndex(end, |data|);
    if from <= to then data[from..to] else []
  }

  // ---------------------------------------------------------------- the reader

  /** What `derReadTL` returns or throws. An undefined length byte compares as false and masks
      to zero, so it acts as a long form without octets. */
  function ReadTL(data: Bytes, offset: int): Result<Tl, DerError> {
    if offset + 1 >= |data| then Err(UnexpectedEnd)
    else
      var lenByte := At(data, offset + 1);
      var count := if lenByte.Some? && lenByte.value >= 0x80 then lenByte.value - 0x80 else 0;
      if lenByte.Some? && lenByte.value < 0x80 then
        CheckValue(data, offset, offset + 2, lenByte.value)
      else if offset + 2 + count > |data| then Err(LengthBytesExceedData)
      else
        var octets := if count == 0 then [] else data[offset + 2..offset + 2 + count];
        CheckValue(data, offset, offset + 2 + count, ToInt32(FromBE(octets)))
  }

  function CheckValue(data: Bytes, offset: int, valueOffset: int, valueLength: int): Result<Tl, DerError> {
    if valueOffset + valueLength > |data| then Err(ValueExceedsData)
    else Ok(Tl(valueOffset, valueLength, valueOffset - offset + valueLength))
  }

  /** The loop over the length octets. */
  method ShiftInAll(octets: Bytes) returns (len: int)
    ensures len == ToInt32(FromBE(octets))
  {
    len := 0;
    var i := 0;
    while i < |octets|
      invariant 0 <= i <= |octets|
      invariant len == ToInt32(FromBE(octets[..i]))
    {
      ShiftIn32(FromBE(octets[..i]), octets[i]);
      FromBESnoc(octets[..i], octets[i]);
      assert octets[..i + 1] == octets[..i] + [octets[i]];
      len := ToInt32(len * 256) + octets[i];
      i := i + 1;
    }
    assert octets[..i] == octets;
  }

  method DerReadTL(data: Bytes, offset: int) returns (r: Result<Tl, DerError>)
    ensures r == ReadTL(data, offset)
  {
    if offset + 1 >= |data| {
      return Err(UnexpectedEnd);
    }
    var lenByte := At(data, offset + 1);
    var valueOffset, valueLength: int;
    if lenByte.Some? && lenByte.value < 0x80 {
      valueOffset := offset + 2;
      valueLength := lenByte.value;
    } else {
      var numLenBytes := if lenByte.Some? then lenByte.value - 0x80 else 0;
      if offset + 2 + numLenBytes > |data| {
        return Err(LengthBytesExceedData);
      }
      valueOffset := offset + 2 + numLenBytes;
      valueLength := ShiftInAll(if numLenBytes == 0 then [] else data[offset + 2..offset + 2 + numLenBytes]);
    }
    var totalLength := valueOffset - offset + valueLength;
    if valueOffset + valueLength > |data| {
      return Err(ValueExceedsData);
    }
    return Ok(Tl(valueOffset, valueLength, totalLength));
  }

  function Skip(data: Bytes, offset: int): Result<int, DerError> {
    var t :- ReadTL(data, offset);
    Ok(t.valueOffset + t.valueLength)
  }

  method DerSkip(data: Bytes, offset: int) returns (r: Result<int, DerError>)
    ensures r == Skip(data, offset)
  {
    var t :- DerReadTL(data, offset);
    return Ok(t.valueOffset + t.valueLength);
  }

  /** Skip serialNumber, signature, issuer, validity and subject. */
  function SkipFive(data: Bytes, offset: int): Result<int, DerError> {
    var p1 :- Skip(data, offset);
    var p2 :- Skip(data, p1);
    var p3 :- Skip(data, p2);
    var p4 :- Skip(data, p3);
    Skip(data, p4)
  }

  function SpkiOf(cert: Bytes): Result<Bytes, DerError> {
    var outer :- ReadTL(cert, 0);
    var tbs :- ReadTL(cert, outer.valueOffset);
    var start :- PastVersion(cert, tbs.valueOffset);
    var pos :- SkipFive(cert, start);
    var spki :- ReadTL(cert, pos);
    Ok(JsSlice(cert, pos, pos + spki.totalLength))
  }

  function PastVersion(cert: Bytes, pos: int): Result<int, DerError> {
    if At(cert, pos) == Some(0xa0) then Skip(cert, pos) else Ok(pos)
  }

  method ExtractSpkiDer(cert: Bytes) returns (r: Result<Bytes, DerError>)
    ensures r == SpkiOf(cert)
  {
    var outer :- DerReadTL(cert, 0);
    var tbs :- DerReadTL(cert, outer.valueOffset);
    var pos := tbs.valueOffset;
    if At(cert, pos) == Some(0xa0) {
      pos :- DerSkip(cert, pos);
    }
    pos :- DerSkip(cert, pos);  // serialNumber
    pos :- DerSkip(cert, pos);  // signature
    pos :- DerSkip(cert, pos);  // issuer
    pos :- DerSkip(cert, pos);  // validity
    pos :- DerSkip(cert, pos);  // subject
    var spki :- DerReadTL(cert, pos);
    return Ok(JsSlice(cert, pos, pos + spki.totalLength));
  }

  // ---------------------------------------------------------------- agreement and progress

  /** The browser's reader agrees with the guest's on every length below 2^31, in whatever
      form it is written, whose value lies inside the buffer. */
  lemma ReadersAgree(data: Bytes, offset: nat)
    requires offset + 1 < |data|
    requires ReadLength(data[offset + 1..]).Some?
    requires ReadLength(data[offset + 1..]).value.0 < 0x8000_0000
    ensures var (n, c) := ReadLength(data[offset + 1..]).value;
            ReadTL(data, offset) == if offset + 1 + c + n <= |data| then Ok(Tl(offset + 1 + c, n, 1 + c + n))
                                    else Err(ValueExceedsData)
  {
    var tail := data[offset + 1..];
    assert tail[0] == data[offset + 1];
    if tail[0] >= 0x80 {
      var count := tail[0] - 0x80;
      assert tail[1..1 + count] == data[offset + 2..offset + 2 + count];
      SameReduction(FromBE(data[offset + 2..offset + 2 + count]));
    }
  }

  /** Reducing to 64 bits first does not change a small 32-bit result. */
  lemma SameReduction(x: nat)
    requires Wrap64(x) < 0x8000_0000
    ensures ToInt32(x) == Wrap64(x)
  {
    var k := Quotient64(x);
    assert x == Wrap64(x) + (k * 0x1_0000_0000) * 0x1_0000_0000;
    Periodic32(Wrap64(x), k * 0x1_0000_0000);
  }

  /** With at most three length octets every successful skip moves forward and stays inside. */
  lemma SkipAdvances(data: Bytes, offset: nat)
    requires offset + 1 < |data| && data[offset + 1] <= 0x83
    requires Skip(data, offset).Ok?
    ensures offset + 2 <= Skip(data, offset).value <= |data|
  {
    if data[offset + 1] >= 0x80 {
      var count := data[offset + 1] - 0x80;
      var octets := if count == 0 then [] else data[offset + 2..offset + 2 + count];
      FromBEBound(octets);
      Pow256Mono(|octets|, 3);
      assert Pow256(3) == 256 * Pow256(2) == 65536 * Pow256(1) == 0x100_0000;
    }
  }

  // ---------------------------------------------------------------- certificates

  /** A TLV with any length form that reads correctly, such as one with up to three octets. */
  datatype Element = Element(tag: byte, header: Bytes, value: Bytes) {
    predicate Valid() {
      && ReadLength(header) == Some((|value|, |header|))
      && |value| < 0x8000_0000
    }

    function Encoded(): Bytes {
      [tag] + header + value
    }
  }

  /** An element in DER is one of these; with at most three length octets it holds up to 2^24 - 1 bytes. */
  lemma DerElementValid(tag: byte, value: Bytes)
    requires |value| < 0x8000_0000
    ensures Element(tag, LengthOctets(|value|), value).Valid()
  {
    LengthRoundTrip(|value|, []);
    assert LengthOctets(|value|) + [] == LengthOctets(|value|);
  }

  function ConcatAll(es: seq<Element>): Bytes {
    if |es| == 0 then [] else es[0].Encoded() + ConcatAll(es[1..])
  }

  ghost predicate AllValid(es: seq<Element>) {
    forall e | e in es :: e.Valid()
  }

  /** `part` stands at `start`. */
  predicate HoldsAt(data: Bytes, start: nat, part: Bytes) {
    start + |part| <= |data| && data[start..start + |part|] == part
  }

  lemma HoldsSplit(data: Bytes, start: nat, a: Bytes, b: Bytes)
    requires HoldsAt(data, start, a + b)
    ensures HoldsAt(data, start, a) && HoldsAt(data, start + |a|, b)
  {
    var whole := data[start..start + |a + b|];
    assert whole == a + b;
    assert data[start..start + |a|] == whole[..|a|] == a;
    assert data[start + |a|..start + |a| + |b|] == whole[|a|..] == b;
  }

  /** `e` stands at `offset` and the reader finds it there, ending at `next`. */
  ghost predicate Located(data: Bytes, e: Element, offset: nat, next: nat) {
    && offset < next <= |data|
    && data[offset..next] == e.Encoded()
    && next == offset + |e.Encoded()|
    && ReadTL(data, offset) == Ok(Tl(offset + 1 + |e.header|, |e.value|, |e.Encoded()|))
  }

  /** The elements stand one after the other from `start`. */
  ghost predicate AllHold(data: Bytes, es: seq<Element>, start: nat)
    decreases |es|
  {
    es != [] ==>
      && es[0].Valid()
      && HoldsAt(data, start, es[0].Encoded())
      && AllHold(data, es[1..], start + |es[0].Encoded()|)
  }

  lemma LocateOne(data: Bytes, start: nat, e: Element)
    requires e.Valid() && HoldsAt(data, start, e.Encoded())
    ensures Located(data, e, start, start + |e.Encoded()|)
  {
    var rest := data[start + 1 + |e.header|..];
    HoldsSplit(data, start, [e.tag] + e.header, e.value);
    HoldsSplit(data, start, [e.tag], e.header);
    assert data[start + 1..] == e.header + rest;
    ReadLengthExtends(e.header, rest);
    ReadersAgree(data, start);
  }

  lemma {:induction false} SplitElements(data: Bytes, start: nat, es: seq<Element>)
    requires AllValid(es) && HoldsAt(data, start, ConcatAll(es))
    ensures AllHold(data, es, start)
    decreases |es|
  {
    if es != [] {
      HoldsSplit(data, start, es[0].Encoded(), ConcatAll(es[1..]));
      SplitElements(data, start + |es[0].Encoded()|, es[1..]);
    }
  }

  /** Skipping one element. */
  lemma SkipOne(data: Bytes, es: seq<Element>, start: nat) returns (next: nat)
    requires es != [] && AllHold(data, es, start)
    ensures Skip(data, start) == Ok(next)
    ensures At(data, start) == Some(es[0].tag)
    ensures AllHold(data, es[1..], next)
  {
    next := start + |es[0].Encoded()|;
    LocateOne(data, start, es[0]);
    assert data[start] == data[start..next][0];
  }

  lemma KeyLocated(data: Bytes, e: Element, start: nat, next: nat)
    requires Located(data, e, start, next)
    ensures ReadTL(data, start).Ok?
    ensures JsSlice(data, start, start + ReadTL(data, start).value.totalLength) == e.Encoded()
  {
  }

  /** Five results of skipping, chained. */
  lemma ChainFive(data: Bytes, p0: int, p1: int, p2: int, p3: int, p4: int, p5: int)
    requires Skip(data, p0) == Ok(p1) && Skip(data, p1) == Ok(p2) && Skip(data, p2) == Ok(p3)
    requires Skip(data, p3) == Ok(p4) && Skip(data, p4) == Ok(p5)
    ensures SkipFive(data, p0) == Ok(p5)
  {
  }

  /** The walk over five fields to the key. */
  lemma WalkFields(data: Bytes, es: seq<Element>, start: nat) returns (pos: nat)
    requires |es| == 6 && AllHold(data, es, start)
    ensures SkipFive(data, start) == Ok(pos)
    ensures Located(data, es[5], pos, pos + |es[5].Encoded()|)
  {
    var es1 := es[1..];
    var es2, es3, es4, es5 := es1[1..], es1[1..][1..], es1[1..][1..][1..], es1[1..][1..][1..][1..];
    var p1 := SkipOne(data, es, start);
    var p2 := SkipOne(data, es1, p1);
    var p3 := SkipOne(data, es2, p2);
    var p4 := SkipOne(data, es3, p3);
    pos := SkipOne(data, es4, p4);
    ChainFive(data, start, p1, p2, p3, p4, pos);
    assert es5[0] == es[5];
    assert AllHold(data, es5, pos);
    LocateOne(data, pos, es[5]);
  }

  /** The parts of a certificate: an optional version, five fields, the key, then anything. */
  datatype Certificate = Certificate(
    outerHeader: Bytes, tbsHeader: Bytes, version: Option<Element>,
    serial: Element, sigAlg: Element, issuer: Element, validity: Element, subject: Element,
    spki: Element, tbsRest: Bytes, outerRest: Bytes, trailing: Bytes)
  {
    function Version(): seq<Element> {
      if version.Some? then [version.value] else []
    }

    function Fields(): seq<Element> {
      [serial, sigAlg, issuer, validity, subject, spki]
    }

    function Elements(): seq<Element> {
      Version() + Fields()
    }

    function Tbs(): Element {
      Element(0x30, tbsHeader, ConcatAll(Elements()) + tbsRest)
    }

    function Outer(): Element {
      Element(0x30, outerHeader, Tbs().Encoded() + outerRest)
    }

    function Encoded(): Bytes {
      Outer().Encoded() + trailing
    }

    ghost predicate Valid() {
      && Outer().Valid() && Tbs().Valid() && AllValid(Elements())
      && (if version.Some? then version.value.tag == 0xa0 else serial.tag != 0xa0)
    }
  }

  /** The value of an element stands behind its tag and header. */
  lemma ValueHolds(data: Bytes, start: nat, e: Element)
    requires HoldsAt(data, start, e.Encoded())
    ensures HoldsAt(data, start + 1 + |e.header|, e.value)
  {
    HoldsSplit(data, start, [e.tag] + e.header, e.value);
  }

  /** Where the outer SEQUENCE, the inner one and the elements stand. */
  lemma Nested(data: Bytes, outer: Element, tbs: Element, body: Bytes, tbsRest: Bytes, outerRest: Bytes, trailing: Bytes)
    requires data == outer.Encoded() + trailing
    requires outer.value == tbs.Encoded() + outerRest && tbs.value == body + tbsRest
    ensures HoldsAt(data, 0, outer.Encoded())
    ensures HoldsAt(data, 1 + |outer.header|, tbs.Encoded())
    ensures HoldsAt(data, 2 + |outer.header| + |tbs.header|, body)
  {
    var outerAt, tbsAt := 1 + |outer.header|, 2 + |outer.header| + |tbs.header|;
    ValueHolds(data, 0, outer);
    HoldsSplit(data, outerAt, tbs.Encoded(), outerRest);
    ValueHolds(data, outerAt, tbs);
    HoldsSplit(data, tbsAt, body, tbsRest);
  }

  /** Results of the single readings, chained. */
  lemma ChainWalk(data: Bytes, outerEnd: int, tbsEnd: int, first: int, pos: int, key: Bytes)
    requires ReadTL(data, 0).Ok? && ReadTL(data, 0).value.valueOffset == outerEnd
    requires ReadTL(data, outerEnd).Ok? && ReadTL(data, outerEnd).value.valueOffset == tbsEnd
    requires PastVersion(data, tbsEnd) == Ok(first)
    requires SkipFive(data, first) == Ok(pos)
    requires ReadTL(data, pos).Ok? && JsSlice(data, pos, pos + ReadTL(data, pos).value.totalLength) == key
    ensures SpkiOf(data) == Ok(key)
  {
  }

  /** The walk, given where everything stands. */
  lemma WalkLocated(data: Bytes, outer: Element, tbs: Element, es: seq<Element>, version: seq<Element>,
                    fields: seq<Element>, outerAt: nat, start: nat, outerEnd: nat, tbsEnd: nat)
    requires outerAt == 1 + |outer.header| && start == 2 + |outer.header| + |tbs.header|
    requires Located(data, outer, 0, outerEnd) && Located(data, tbs, outerAt, tbsEnd)
    requires es == version + fields && |version| <= 1 && |fields| == 6
    requires AllHold(data, es, start)
    requires es[0].tag == 0xa0 <==> version != []
    ensures SpkiOf(data) == Ok(fields[5].Encoded())
  {
    var next := SkipOne(data, es, start);
    var first := if version == [] then start else next;
    assert PastVersion(data, start) == Ok(first);
    assert fields == if version == [] then es else es[1..];
    var pos := WalkFields(data, fields, first);
    KeyLocated(data, fields[5], pos, pos + |fields[5].Encoded()|);
    ChainWalk(data, outerAt, start, first, pos, fields[5].Encoded());
  }

  lemma LocateEnvelopes(data: Bytes, outer: Element, tbs: Element, at: nat, outerEnd: nat, tbsEnd: nat)
    requires outerEnd == |outer.Encoded()| && tbsEnd == at + |tbs.Encoded()|
    requires outer.Valid() && HoldsAt(data, 0, outer.Encoded())
    requires tbs.Valid() && HoldsAt(data, at, tbs.Encoded())
    ensures Located(data, outer, 0, outerEnd) && Located(data, tbs, at, tbsEnd)
  {
    LocateOne(data, 0, outer);
    LocateOne(data, at, tbs);
  }

  /** The walk over any buffer in which the parts stand where they belong. */
  lemma WalkFinds(data: Bytes, outer: Element, tbs: Element, es: seq<Element>, version: seq<Element>, fields: seq<Element>,
                  outerAt: nat, tbsAt: nat)
    requires outerAt == 1 + |outer.header| && tbsAt == 2 + |outer.header| + |tbs.header|
    requires outer.Valid() && HoldsAt(data, 0, outer.Encoded())
    requires tbs.Valid() && HoldsAt(data, outerAt, tbs.Encoded())
    requires es == version + fields && |version| <= 1 && |fields| == 6 && AllHold(data, es, tbsAt)
    requires es[0].tag == 0xa0 <==> version != []
    ensures SpkiOf(data) == Ok(fields[5].Encoded())
  {
    var outerEnd, tbsEnd := |outer.Encoded()|, outerAt + |tbs.Encoded()|;
    LocateEnvelopes(data, outer, tbs, outerAt, outerEnd, tbsEnd);
    WalkLocated(data, outer, tbs, es, version, fields, outerAt, tbsAt, outerEnd, tbsEnd);
  }

  /** Extraction inverts construction: the result is exactly the SubjectPublicKeyInfo element,
      with or without version, whatever follows it. */
  lemma ExtractionInvertsConstruction(c: Certificate)
    requires c.Valid()
    ensures SpkiOf(c.Encoded()) == Ok(c.spki.Encoded())
  {
    WalkNested(c.Encoded(), c.Outer(), c.Tbs(), c.Elements(), c.Version(), c.Fields(), c.tbsRest, c.outerRest, c.trailing);
  }

  // ---------------------------------------------------------------- certificates in DER

  /** An element in DER. */
  function DerElement(tag: byte, value: Bytes): (e: Element)
    requires |value| < 0x8000_0000
    ensures e.tag == tag && e.value == value
    ensures e.Valid() && e.Encoded() == Tlv(tag, value)
  {
    DerElementValid(tag, value);
    Element(tag, LengthOctets(|value|), value)
  }

  /** The first fields of TBSCertificate: version, serialNumber, signature, issuer, validity,
      subject and subjectPublicKeyInfo. */
  datatype TbsFields = TbsFields(version: Option<Bytes>, serial: Bytes, sigAlg: Bytes, issuer: Bytes,
                                 validity: Bytes, subject: Bytes, spki: Bytes)
  {
    /** In DER, each with its tag. */
    function Encoded(): Bytes
      requires Small()
    {
      (if version.Some? then Tlv(0xa0, version.value) else [])
      + (Tlv(0x02, serial) + (Tlv(0x30, sigAlg) + (Tlv(0x30, issuer) + (Tlv(0x30, validity)
      + (Tlv(0x30, subject) + Tlv(0x30, spki))))))
    }

    /** Each is shorter than 2 GiB. */
    predicate Small() {
      && (version.Some? ==> |version.value| < 0x8000_0000)
      && |serial| < 0x8000_0000 && |sigAlg| < 0x8000_0000 && |issuer| < 0x8000_0000
      && |validity| < 0x8000_0000 && |subject| < 0x8000_0000 && |spki| < 0x8000_0000
    }

    function Key(): Element
      requires Small()
    {
      DerElement(0x30, spki)
    }

    function Fields(): (es: seq<Element>)
      requires Small()
      ensures |es| == 6
    {
      [DerElement(0x02, serial), DerElement(0x30, sigAlg), DerElement(0x30, issuer),
       DerElement(0x30, validity), DerElement(0x30, subject), Key()]
    }
  }

  lemma ConcatCons(e: Element, es: seq<Element>)
    ensures ConcatAll([e] + es) == e.Encoded() + ConcatAll(es)
  {
    assert ([e] + es)[1..] == es;
  }

  lemma ConcatSix(a: Element, b: Element, c: Element, d: Element, e: Element, f: Element)
    ensures ConcatAll([a, b, c, d, e, f])
         == a.Encoded() + (b.Encoded() + (c.Encoded() + (d.Encoded() + (e.Encoded() + f.Encoded()))))
  {
    ConcatCons(f, []);
    ConcatCons(e, [f]);
    ConcatCons(d, [e, f]);
    ConcatCons(c, [d, e, f]);
    ConcatCons(b, [c, d, e, f]);
    ConcatCons(a, [b, c, d, e, f]);
    assert [f] + [] == [f] && f.Encoded() + [] == f.Encoded();
    assert [e] + [f] == [e, f] && [d] + [e, f] == [d, e, f] && [c] + [d, e, f] == [c, d, e, f];
    assert [b] + [c, d, e, f] == [b, c, d, e, f] && [a] + [b, c, d, e, f] == [a, b, c, d, e, f];
  }

  /** In particular, from every certificate in DER below 2 GiB, of either version form, the encoded
      SubjectPublicKeyInfo comes back. `more` are the fields after the key, `signed` what follows
      the TBSCertificate. */
  lemma DerCertificateExtraction(t: TbsFields, more: Bytes, signed: Bytes, trailing: Bytes)
    requires t.Small() && |t.Encoded() + more| < 0x8000_0000
    requires |Tlv(0x30, t.Encoded() + more) + signed| < 0x8000_0000
    ensures SpkiOf(Tlv(0x30, Tlv(0x30, t.Encoded() + more) + signed) + trailing) == Ok(Tlv(0x30, t.spki))
  {
    var tbs := DerElement(0x30, t.Encoded() + more);
    var outer := DerElement(0x30, tbs.Encoded() + signed);
    var version := if t.version.Some? then [DerElement(0xa0, t.version.value)] else [];
    DerBody(t, version);
    WalkNested(outer.Encoded() + trailing, outer, tbs, version + t.Fields(), version, t.Fields(), more, signed, trailing);
  }

  /** Nesting and walk in one. */
  lemma WalkNested(data: Bytes, outer: Element, tbs: Element, es: seq<Element>, version: seq<Element>,
                   fields: seq<Element>, tbsRest: Bytes, outerRest: Bytes, trailing: Bytes)
    requires outer.Valid() && tbs.Valid() && AllValid(es)
    requires data == outer.Encoded() + trailing
    requires outer.value == tbs.Encoded() + outerRest && tbs.value == ConcatAll(es) + tbsRest
    requires es == version + fields && |version| <= 1 && |fields| == 6
    requires es[0].tag == 0xa0 <==> version != []
    ensures SpkiOf(data) == Ok(fields[5].Encoded())
  {
    Nested(data, outer, tbs, ConcatAll(es), tbsRest, outerRest, trailing);
    var tbsAt := 2 + |outer.header| + |tbs.header|;
    SplitElements(data, tbsAt, es);
    WalkFinds(data, outer, tbs, es, version, fields, 1 + |outer.header|, tbsAt);
  }

  lemma DerBody(t: TbsFields, version: seq<Element>)
    requires t.Small()
    requires version == if t.version.Some? then [DerElement(0xa0, t.version.value)] else []
    ensures ConcatAll(version + t.Fields()) == t.Encoded()
    ensures AllValid(version + t.Fields())
    ensures (version + t.Fields())[0].tag == 0xa0 <==> version != []
  {
    var f := t.Fields();
    ConcatSix(f[0], f[1], f[2], f[3], f[4], f[5]);
    assert f == [f[0], f[1], f[2], f[3], f[4], f[5]];
    if version != [] {
      ConcatCons(version[0], f);
    } else {
      assert version + f == f;
    }
  }

  // ---------------------------------------------------------------- errors

  /** The three errors of the reader, and exactly when: no length octet; length octets beyond the data;
      a value beyond the data. Lengths from 2^31 on, which turn negative, are left aside. */
  lemma ReadErrorsExactly(data: Bytes, offset: nat)
    ensures ReadTL(data, offset) == Err(UnexpectedEnd) <==> offset + 1 >= |data|
    ensures ReadTL(data, offset) == Err(LengthBytesExceedData)
        <==> offset + 1 < |data| && ReadLength(data[offset + 1..]).None?
    ensures offset + 1 < |data| && ReadLength(data[offset + 1..]).Some?
            && ReadLength(data[offset + 1..]).value.0 < 0x8000_0000 ==>
              var (n, c) := ReadLength(data[offset + 1..]).value;
              ReadTL(data, offset) == Err(ValueExceedsData) <==> offset + 1 + c + n > |data|
  {
    if offset + 1 < |data| {
      assert data[offset + 1..][0] == data[offset + 1];
      if ReadLength(data[offset + 1..]).Some? && ReadLength(data[offset + 1..]).value.0 < 0x8000_0000 {
        ReadersAgree(data, offset);
      }
    }
  }

  /** The extraction fails only where one of its reads does, and then with that error. */
  lemma ExtractionErrors(cert: Bytes)
    requires SpkiOf(cert).Err?
    ensures exists offset :: ReadTL(cert, offset).Err? && SpkiOf(cert).error == ReadTL(cert, offset).error
  {
    var outer := ReadTL(cert, 0);
    if outer.Ok? {
      var tbs := ReadTL(cert, outer.value.valueOffset);
      if tbs.Ok? {
        var start := PastVersion(cert, tbs.value.valueOffset);
        if start.Err? {
          assert ReadTL(cert, tbs.value.valueOffset).Err?;
        } else {
          SkipErrors(cert, start.value);
        }
      }
    }
  }

  lemma SkipErrors(cert: Bytes, start: int)
    ensures SkipFive(cert, start).Err? ==>
              exists offset :: ReadTL(cert, offset).Err? && SkipFive(cert, start).error == ReadTL(cert, offset).error
  {
    var p1 := Skip(cert, start);
    if p1.Ok? {
      var p2 := Skip(cert, p1.value);
      if p2.Ok? {
        var p3 := Skip(cert, p2.value);
        if p3.Ok? {
          var p4 := Skip(cert, p3.value);
          if p4.Ok? {
            assert Skip(cert, p4.value).Err? ==> ReadTL(cert, p4.value).Err?;
          }
        }
      }
    }
  }

  /** `slice` inside the data, and with indices that are negative or too large. */
  lemma JsSliceExactly(data: Bytes, i: nat, j: nat)
    requires i <= j <= |data|
    ensures JsSlice(data, i, j) == data[i..j]
    ensures i < |data| ==> JsSlice(data, i - |data|, |data|) == data[i..]
    ensures JsSlice(data, i, |data| + j) == data[i..]
    ensures JsSlice(data, -|data| - j, i) == data[..i]
    ensures i < j ==> JsSlice(data, j, i) == []
  {
  }
}
