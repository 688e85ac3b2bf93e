/** Hexadecimal text. */
module Hex {
  import opened Outcomes
  import opened Octets

  function HexDigit(n: nat): (c: char)
    requires n < 16
    ensures HexValue(c) == Some(n)
  {
    if n < 10 then '0' + n as char else 'a' + (n - 10) as char
  }

  /** Both cases are accepted. */
  function HexValue(c: char): (v: Option<nat>)
    ensures v.Some? ==> v.value < 16
  {
    if '0' <= c <= '9' then Some((c - '0') as nat)
    else if 'a' <= c <= 'f' then Some((c - 'a') as nat + 10)
    else if 'A' <= c <= 'F' then Some((c - 'A') as nat + 10)
    else None
  }

  function HexEncode(b: Bytes): (s: string)
    ensures |s| == 2 * |b|
  {
    if |b| == 0 then "" else [HexDigit(b[0] / 16), HexDigit(b[0] % 16)] + HexEncode(b[1..])
  }

  function HexByte(c: char, d: char): Option<byte> {
    var hi :- HexValue(c);
    var lo :- HexValue(d);
    Some(hi * 16 + lo)
  }

  /** `hex::decode`: fails on odd length or any other character. */
  function HexDecode(s: string): (b: Option<Bytes>)
    ensures b.Some? ==> |s| == 2 * |b.value|
  {
    if |s| == 0 then Some([])
    else if |s| == 1 then None
    else
      var first :- HexByte(s[0], s[1]);
      var rest :- HexDecode(s[2..]);
      Some([first] + rest)
  }

  function LowerDigit(c: char): char {
    if 'A' <= c <= 'F' then 'a' + (c - 'A') else c
  }

  /** Hexadecimal digits in lower case. */
  function Lower(s: string): (r: string)
    ensures |r| == |s|
  {
    if |s| == 0 then "" else [LowerDigit(s[0])] + Lower(s[1..])
  }

  lemma DigitExact(c: char, v: nat)
    requires v < 16
    ensures HexValue(c) == Some(v) <==> LowerDigit(c) == HexDigit(v)
  {
  }

  lemma ByteExact(c: char, d: char, b: byte)
    ensures HexByte(c, d) == Some(b) <==> LowerDigit(c) == HexDigit(b / 16) && LowerDigit(d) == HexDigit(b % 16)
  {
    DigitExact(c, b / 16);
    DigitExact(d, b % 16);
  }

  /** A text decodes to bytes exactly when it is their encoding in upper, lower or mixed case. */
  lemma {:induction false} HexDecodeExact(s: string, b: Bytes)
    ensures HexDecode(s) == Some(b) <==> Lower(s) == HexEncode(b)
    decreases |s|
  {
    if |s| >= 2 && b != [] {
      HexDecodeExact(s[2..], b[1..]);
      DecodeStep(s, b[0], b[1..]);
      assert b == [b[0]] + b[1..];
      ByteExact(s[0], s[1], b[0]);
      LowerStep(s);
      FirstTwo(LowerDigit(s[0]), LowerDigit(s[1]), Lower(s[2..]),
               HexDigit(b[0] / 16), HexDigit(b[0] % 16), HexEncode(b[1..]));
    }
  }

  lemma DecodeStep(s: string, first: byte, rest: Bytes)
    requires |s| >= 2
    ensures HexDecode(s) == Some([first] + rest) <==> HexByte(s[0], s[1]) == Some(first) && HexDecode(s[2..]) == Some(rest)
  {
    if HexDecode(s) == Some([first] + rest) {
      var r := HexDecode(s).value;
      assert r[0] == first && r[1..] == rest;
    }
  }

  lemma LowerStep(s: string)
    requires |s| >= 2
    ensures Lower(s) == [LowerDigit(s[0]), LowerDigit(s[1])] + Lower(s[2..])
  {
    assert s[1..][1..] == s[2..];
  }

  lemma FirstTwo(a: char, b: char, s: string, c: char, d: char, t: string)
    ensures [a, b] + s == [c, d] + t <==> a == c && b == d && s == t
  {
    if [a, b] + s == [c, d] + t {
      assert ([a, b] + s)[0] == a && ([a, b] + s)[1] == b && ([a, b] + s)[2..] == s;
      assert ([c, d] + t)[0] == c && ([c, d] + t)[1] == d && ([c, d] + t)[2..] == t;
    }
  }

  /** `strip_prefix("0x")`, or the text itself. */
  function Strip0x(s: string): string {
    if "0x" <= s then s[2..] else s
  }

  // ---------------------------------------------------------------- in plain terms

  lemma HexDigitExactly(n: nat)
    requires n < 16
    ensures HexDigit(n) == "0123456789abcdef"[n]
  {
  }

  lemma HexValueExactly(c: char, n: nat)
    requires n < 16
    ensures HexValue(c) == Some(n) <==> c == "0123456789abcdef"[n] || c == "0123456789ABCDEF"[n]
  {
  }

  /** Byte `i` takes digits 2i and 2i + 1, the high half first. */
  lemma {:induction false} HexEncodeAt(b: Bytes, i: nat)
    requires i < |b|
    ensures HexEncode(b)[2 * i] == "0123456789abcdef"[b[i] / 16]
    ensures HexEncode(b)[2 * i + 1] == "0123456789abcdef"[b[i] % 16]
  {
    if i == 0 {
      HexDigitExactly(b[0] / 16);
      HexDigitExactly(b[0] % 16);
    } else {
      HexEncodeAt(b[1..], i - 1);
    }
  }

  /** Only a leading "0x" is taken away. */
  lemma Strip0xExactly(s: string)
    ensures Strip0x("0x" + s) == s
    ensures |s| < 2 || s[0] != '0' || s[1] != 'x' ==> Strip0x(s) == s
  {
    assert ("0x" + s)[2..] == s;
    assert "0x" <= s ==> s[0] == "0x"[0] && s[1] == "0x"[1];
  }
}
