/** DER lengths (sections 8.1.3 and 10.1 of X.690): the encoder of the key-chain code and
    the reader of the guest. */
module Der {
  import opened Outcomes
  import opened Octets

  // ---------------------------------------------------------------- minimal big-endian

  /** The shortest big-endian form; empty for zero. */
  function MinimalBE(n: nat): (b: Bytes)
    ensures n > 0 ==> b != [] && b[0] != 0
  {
    if n == 0 then [] else MinimalBE(n / 256) + [n % 256]
  }

  lemma {:induction false} MinimalBEValue(n: nat)
    ensures FromBE(MinimalBE(n)) == n
  {
    if n > 0 {
      MinimalBEValue(n / 256);
      FromBESnoc(MinimalBE(n / 256), n % 256);
    }
  }

  /** A byte string without leading zero is the minimal form of its value. */
  lemma {:induction false} MinimalBEUnique(b: Bytes)
    requires b != [] ==> b[0] != 0
    ensures b == MinimalBE(FromBE(b))
  {
    if b != [] {
      var front := b[..|b| - 1];
      MinimalBEUnique(front);
      FromBEPositive(b);
      assert FromBE(b) / 256 == FromBE(front) && FromBE(b) % 256 == b[|b| - 1];
      assert b == front + [b[|b| - 1]];
    }
  }

  lemma {:induction false} MinimalBELength(n: nat, k: nat)
    ensures n < Pow256(k) <==> |MinimalBE(n)| <= k
  {
    if k == 0 {
    } else if n > 0 {
      MinimalBELength(n / 256, k - 1);
    }
  }

  /** The byte string without its leading zeros. */
  function Strip(b: Bytes): Bytes {
    if b != [] && b[0] == 0 then Strip(b[1..]) else b
  }

  lemma {:induction false} StripIsMinimal(b: Bytes)
    ensures Strip(b) == MinimalBE(FromBE(b))
  {
    if b != [] && b[0] == 0 {
      StripIsMinimal(b[1..]);
      FromBELeadingZero(b[1..]);
      assert b == [0] + b[1..];
    } else {
      MinimalBEUnique(b);
    }
  }

  /** `position(|b| b != 0)`. */
  method FirstNonZero(b: Bytes) returns (k: Option<nat>)
    ensures k.Some? ==> k.value < |b| && b[k.value] != 0 && b[k.value..] == Strip(b)
    ensures k.None? ==> Strip(b) == []
  {
    assert b[0..] == b;
    for i := 0 to |b|
      invariant Strip(b[i..]) == Strip(b)
    {
      if b[i] != 0 {
        return Some(i);
      }
      assert b[i..][1..] == b[i + 1..];
    }
    return None;
  }

  // ---------------------------------------------------------------- lengths

  /** The DER form of a length: one octet below 128, else the shortest long form. */
  function LengthOctets(n: nat): (b: Bytes)
    requires n < U64
    ensures 1 <= |b| <= 9
  {
    Pow256Eight();
    MinimalBELength(n, 8);
    if n < 128 then [n] else [0x80 + |MinimalBE(n)|] + MinimalBE(n)
  }

  lemma StrippedWord(n: nat, word: Bytes)
    requires n < U64 && word == ToBE(n, 8)
    ensures Strip(word) == MinimalBE(n) && |MinimalBE(n)| <= 8
  {
    Pow256Eight();
    FromToBE(n, 8);
    StripIsMinimal(word);
    MinimalBELength(n, 8);
  }

  /** The big-endian bytes without leading zeros. */
  method SignificantBytes(len: nat) returns (b: Bytes)
    requires 0 < len < U64
    ensures b == MinimalBE(len) && |b| <= 8
  {
    var lenBE := ToBE(len, 8);
    StrippedWord(len, lenBE);
    var start := FirstNonZero(lenBE);
    var from := if start.Some? then start.value else |lenBE| - 1;
    return lenBE[from..];
  }

  lemma LongForm(buf: Bytes, n: nat, digits: Bytes)
    requires 128 <= n < U64 && digits == MinimalBE(n) && |digits| <= 8
    ensures (buf + [0x80 + |digits|]) + digits == buf + LengthOctets(n)
  {
    Associates(buf, [0x80 + |digits|], digits);
  }

  method EncodeDerLength(buf: Bytes, len: nat) returns (out: Bytes)
    requires len < U64
    ensures out == buf + LengthOctets(len)
  {
    if len < 128 {
      out := buf + [len];
    } else {
      var lenBytes := SignificantBytes(len);
      out := buf + [0x80 + |lenBytes|];
      out := out + lenBytes;
      LongForm(buf, len, lenBytes);
    }
  }

  /** Reduction to a `usize`. */
  function Wrap64(n: nat): (r: nat)
    ensures r < U64
    ensures n < U64 ==> r == n
  {
    if n < U64 then n else Wrap64(n - U64)
  }

  lemma {:induction false} Periodic64(y: nat, k: nat)
    ensures Wrap64(y + k * U64) == Wrap64(y)
  {
    if k > 0 {
      Periodic64(y, k - 1);
      assert y + k * U64 - U64 == y + (k - 1) * U64;
    }
  }

  /** What is taken away is a multiple of the modulus. */
  lemma {:induction false} Quotient64(n: nat) returns (k: nat)
    ensures n == Wrap64(n) + k * U64
  {
    if n < U64 {
      k := 0;
    } else {
      var j := Quotient64(n - U64);
      k := j + 1;
    }
  }

  /** What the guest's reader returns: the value and the octets used; `None` where it panics. */
  function ReadLength(data: Bytes): (r: Option<(nat, nat)>)
    ensures r.Some? ==> 1 <= r.value.1 <= |data|
  {
    if data == [] then None
    else if data[0] < 0x80 then Some((data[0], 1))
    else
      var count := data[0] - 0x80;
      if |data| < 1 + count then None
      else Some((Wrap64(FromBE(data[1..1 + count])), 1 + count))
  }

  /** Shifting one more byte into a `usize`. */
  lemma ShiftIn64(x: nat, b: byte)
    ensures Wrap64(Wrap64(x) * 256) + b == Wrap64(x * 256 + b)
  {
    var w := Wrap64(x);
    var k := Quotient64(x);
    assert x * 256 + b == (w * 256 + b) + (256 * k) * U64;
    Periodic64(w * 256 + b, 256 * k);
    AddByte(w, b);
  }

  /** A byte fits into the eight low bits of a shifted value. */
  lemma AddByte(w: nat, b: byte)
    ensures Wrap64(w * 256) + b == Wrap64(w * 256 + b)
  {
    var y := Wrap64(w * 256);
    var j := Quotient64(w * 256);
    assert y == 256 * (w - j * 0x100_0000_0000_0000);
    assert w * 256 + b == (y + b) + j * U64;
    Periodic64(y + b, j);
  }

  method DerReadLength(data: Bytes) returns (r: Option<(nat, nat)>)
    ensures r == ReadLength(data)
    ensures r.None? <==> data == [] || (data[0] >= 0x80 && |data| < 1 + (data[0] - 0x80))
    ensures r.Some? && data[0] < 0x80 ==> r.value == (data[0], 1)
    ensures r.Some? && data[0] >= 0x80 ==>
              var count := data[0] - 0x80;
              r.value.1 == 1 + count && exists k: nat :: FromBE(data[1..1 + count]) == r.value.0 + k * U64
  {
    if data == [] {
      return None;
    }
    if data[0] < 0x80 {
      return Some((data[0], 1));
    }
    var numBytes := data[0] - 0x80;
    if |data| < 1 + numBytes {
      return None;
    }
    var len: nat := 0;
    for i := 0 to numBytes
      invariant len == Wrap64(FromBE(data[1..1 + i]))
    {
      ShiftIn64(FromBE(data[1..1 + i]), data[1 + i]);
      assert data[1..1 + (i + 1)] == data[1..1 + i] + [data[1 + i]];
      FromBESnoc(data[1..1 + i], data[1 + i]);
      len := Wrap64(len * 256) + data[1 + i];
    }
    ghost var k := Quotient64(FromBE(data[1..1 + numBytes]));
    return Some((len, 1 + numBytes));
  }

  // ---------------------------------------------------------------- round trip

  /** The reader looks at the header only. */
  lemma ReadLengthExtends(header: Bytes, rest: Bytes)
    requires ReadLength(header).Some? && ReadLength(header).value.1 == |header|
    ensures ReadLength(header + rest) == ReadLength(header)
  {
    SliceOfFront(header, rest, 1, |header|);
    SameHeaderReads(header + rest, header);
  }

  lemma SameHeaderReads(data: Bytes, header: Bytes)
    requires ReadLength(header).Some? && ReadLength(header).value.1 == |header| <= |data|
    requires data[0] == header[0] && data[1..|header|] == header[1..|header|]
    ensures ReadLength(data) == ReadLength(header)
  {
  }

  /** Reading an encoded length gives the length and stops right after it. */
  lemma LengthRoundTrip(n: nat, suffix: Bytes)
    requires n < U64
    ensures ReadLength(LengthOctets(n) + suffix) == Some((n, |LengthOctets(n)|))
  {
    if n >= 128 {
      Pow256Eight();
      MinimalBELength(n, 8);
      MinimalBEValue(n);
      PrefixDropped(0x80 + |MinimalBE(n)|, MinimalBE(n));
      LongFormReads(LengthOctets(n), MinimalBE(n), n);
    }
    ReadLengthExtends(LengthOctets(n), suffix);
  }

  lemma PrefixDropped(first: byte, digits: Bytes)
    ensures ([first] + digits)[1..1 + |digits|] == digits
  {
  }

  lemma LongFormReads(form: Bytes, digits: Bytes, n: nat)
    requires 1 <= |digits| <= 8 && |form| == 1 + |digits| && form[0] == 0x80 + |digits|
    requires form[1..1 + |digits|] == digits && FromBE(digits) == n < U64
    ensures ReadLength(form) == Some((n, 1 + |digits|))
  {
  }

  /** A byte string is at least as long as the minimal form of its value, and equal to it
      when equally long. */
  lemma MinimalBEShortest(b: Bytes)
    ensures |MinimalBE(FromBE(b))| <= |b|
    ensures |MinimalBE(FromBE(b))| == |b| ==> b == MinimalBE(FromBE(b))
  {
    var n := FromBE(b);
    FromBEBound(b);
    MinimalBELength(n, |b|);
    MinimalBEValue(n);
    ToFromBE(b);
    ToFromBE(MinimalBE(n));
  }

  /** No form that reads as `n` is shorter, and none but the DER form is equally short
      (except for zero, which a lone 0x80 also spells). */
  lemma LengthIsShortest(n: nat, form: Bytes)
    requires n < U64
    requires ReadLength(form) == Some((n, |form|))
    ensures |LengthOctets(n)| <= |form|
    ensures |LengthOctets(n)| == |form| && n > 0 ==> form == LengthOctets(n)
  {
    var octets := form[1..];
    assert form == [form[0]] + octets;
    if form[0] >= 0x80 && |octets| <= 8 {
      FromBEBound(octets);
      Pow256Eight();
      Pow256Mono(|octets|, 8);
      assert form[1..|form|] == octets;
      MinimalBEShortest(octets);
    }
  }

  // ---------------------------------------------------------------- elements

  /** An element in DER: tag, length, value. */
  function Tlv(tag: byte, value: Bytes): (b: Bytes)
    requires |value| < U64
    ensures |value| < |b| <= |value| + 10
  {
    [tag] + LengthOctets(|value|) + value
  }

  // ---------------------------------------------------------------- in plain terms

  /** The octets of a length: itself below 128, and otherwise the number of octets, marked with the
      high bit, and its big-endian octets without a leading zero. */
  lemma LengthOctetsExactly(n: nat)
    requires n < U64
    ensures n < 0x80 ==> LengthOctets(n) == [n]
    ensures n >= 0x80 ==>
              var b := LengthOctets(n);
              && 2 <= |b| <= 9 && b[0] == 0x80 + (|b| - 1) && b[1] != 0 && FromBE(b[1..]) == n
  {
    if n >= 0x80 {
      assert LengthOctets(n)[1..] == MinimalBE(n);
      MinimalBEValue(n);
    }
  }

  /** An element is its tag, its length and its value. */
  lemma TlvExactly(tag: byte, value: Bytes)
    requires |value| < U64
    ensures Tlv(tag, value)[0] == tag
    ensures Tlv(tag, value)[1..] == LengthOctets(|value|) + value
  {
  }
}
