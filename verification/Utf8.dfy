/** Characters, their UTF-8 form (section 3 of RFC 3629) and their UTF-16 form. */
module Utf8 {
  import opened Octets

  /** A Unicode scalar value, Rust's `char`. */
  type Scalar = c: int | 0 <= c < 0xD800 || 0xE000 <= c < 0x11_0000

  type Text = seq<Scalar>

  /** A JavaScript code unit. */
  type Unit = u: int | 0 <= u < 0x1_0000

  type Units = seq<Unit>

  function CharLen(c: Scalar): (n: nat)
    ensures 1 <= n <= 4
  {
    if c < 0x80 then 1 else if c < 0x800 then 2 else if c < 0x1_0000 then 3 else 4
  }

  function EncodeChar(c: Scalar): (b: Bytes)
    ensures |b| == CharLen(c)
    ensures c != 0 ==> forall i | 0 <= i < |b| :: b[i] != 0
  {
    if c < 0x80 then [c]
    else if c < 0x800 then [0xC0 + c / 0x40, 0x80 + c % 0x40]
    else if c < 0x1_0000 then [0xE0 + c / 0x1000, 0x80 + c / 0x40 % 0x40, 0x80 + c % 0x40]
    else [0xF0 + c / 0x4_0000, 0x80 + c / 0x1000 % 0x40, 0x80 + c / 0x40 % 0x40, 0x80 + c % 0x40]
  }

  function Encode(s: Text): Bytes {
    if |s| == 0 then [] else EncodeChar(s[0]) + Encode(s[1..])
  }

  // ---------------------------------------------------------------- UTF-16

  predicate IsHigh(u: Unit) {
    0xD800 <= u < 0xDC00
  }

  predicate IsLow(u: Unit) {
    0xDC00 <= u < 0xE000
  }

  function ToUnits(c: Scalar): (u: Units)
    ensures |u| == if c < 0x1_0000 then 1 else 2
  {
    if c < 0x1_0000 then [c]
    else [0xD800 + (c - 0x1_0000) / 0x400, 0xDC00 + (c - 0x1_0000) % 0x400]
  }

  function Utf16(s: Text): Units {
    if |s| == 0 then [] else ToUnits(s[0]) + Utf16(s[1..])
  }

  /** The character of a surrogate pair. */
  function FromPair(high: Unit, low: Unit): (c: Scalar)
    requires IsHigh(high) && IsLow(low)
  {
    var h: int, l: int := high, low;
    0x1_0000 + (h - 0xD800) * 0x400 + (l - 0xDC00)
  }

  /** U+FFFD, which stands for a lone surrogate. */
  const REPLACEMENT: Bytes := [0xEF, 0xBF, 0xBD]

  /** `TextEncoder.encode`. */
  function EncodeUnits(u: Units): Bytes {
    if |u| == 0 then []
    else if IsHigh(u[0]) && |u| > 1 && IsLow(u[1]) then
      EncodeChar(FromPair(u[0], u[1])) + EncodeUnits(u[2..])
    else if IsHigh(u[0]) || IsLow(u[0]) then REPLACEMENT + EncodeUnits(u[1..])
    else EncodeChar(u[0]) + EncodeUnits(u[1..])
  }

  /** The text that `TextEncoder` sees in code units: U+FFFD stands for lone surrogates. */
  function Repaired(u: Units): Text {
    if |u| == 0 then []
    else if IsHigh(u[0]) && |u| > 1 && IsLow(u[1]) then [FromPair(u[0], u[1])] + Repaired(u[2..])
    else if IsHigh(u[0]) || IsLow(u[0]) then [0xFFFD] + Repaired(u[1..])
    else [u[0]] + Repaired(u[1..])
  }

  // ---------------------------------------------------------------- laws

  lemma ThreeParts<T>(a: seq<T>, b: seq<T>, c: seq<T>)
    ensures a + (b + c) == (a + b) + c
  {
  }

  lemma {:induction false} EncodeAppend(s: Text, t: Text)
    ensures Encode(s + t) == Encode(s) + Encode(t)
  {
    if s == [] {
      assert s + t == t;
    } else {
      EncodeAppend(s[1..], t);
      assert (s + t)[1..] == s[1..] + t;
      ThreeParts(EncodeChar(s[0]), Encode(s[1..]), Encode(t));
    }
  }

  lemma {:induction false} Utf16Append(s: Text, t: Text)
    ensures Utf16(s + t) == Utf16(s) + Utf16(t)
  {
    if s == [] {
      assert s + t == t;
    } else {
      Utf16Append(s[1..], t);
      assert (s + t)[1..] == s[1..] + t;
      ThreeParts(ToUnits(s[0]), Utf16(s[1..]), Utf16(t));
    }
  }

  lemma EncodeSnoc(s: Text, c: Scalar)
    ensures Encode(s + [c]) == Encode(s) + EncodeChar(c)
  {
    EncodeAppend(s, [c]);
    assert Encode([c]) == EncodeChar(c) + Encode([]);
  }

  /** The units of one character, before anything, encode as that character. */
  lemma EncodeUnitsOfChar(c: Scalar, rest: Units)
    ensures EncodeUnits(ToUnits(c) + rest) == EncodeChar(c) + EncodeUnits(rest)
  {
    var u := ToUnits(c) + rest;
    if c < 0x1_0000 {
      assert u[1..] == rest;
    } else {
      assert u[2..] == rest;
      var hi, lo := (c - 0x1_0000) / 0x400, (c - 0x1_0000) % 0x400;
      assert c == 0x1_0000 + hi * 0x400 + lo;
    }
  }

  /** Encoding UTF-16 of a text, followed by other units, starts with the text's UTF-8. */
  lemma {:induction false} EncodeUnitsOfText(s: Text, rest: Units)
    ensures EncodeUnits(Utf16(s) + rest) == Encode(s) + EncodeUnits(rest)
  {
    if s == [] {
      assert Utf16(s) + rest == rest;
    } else {
      ThreeParts(ToUnits(s[0]), Utf16(s[1..]), rest);
      EncodeUnitsOfChar(s[0], Utf16(s[1..]) + rest);
      EncodeUnitsOfText(s[1..], rest);
      ThreeParts(EncodeChar(s[0]), Encode(s[1..]), EncodeUnits(rest));
    }
  }

  lemma EncodeUnitsOfWhole(s: Text)
    ensures EncodeUnits(Utf16(s)) == Encode(s)
  {
    EncodeUnitsOfText(s, []);
    assert Utf16(s) + [] == Utf16(s);
  }

  /** A text cut inside a surrogate pair ends in the replacement character. */
  lemma EncodeUnitsOfCut(s: Text, high: Unit)
    requires IsHigh(high)
    ensures EncodeUnits(Utf16(s) + [high]) == Encode(s) + REPLACEMENT
  {
    EncodeUnitsOfText(s, [high]);
    assert EncodeUnits([high]) == REPLACEMENT + EncodeUnits([]);
  }

  lemma EncodeCons(c: Scalar, s: Text)
    ensures Encode([c] + s) == EncodeChar(c) + Encode(s)
    ensures Utf16([c] + s) == ToUnits(c) + Utf16(s)
  {
    assert ([c] + s)[1..] == s;
  }

  lemma {:induction false} EncodeUnitsIsRepaired(u: Units)
    ensures EncodeUnits(u) == Encode(Repaired(u))
    ensures |Utf16(Repaired(u))| == |u|
  {
    if u != [] {
      if IsHigh(u[0]) && |u| > 1 && IsLow(u[1]) {
        EncodeUnitsIsRepaired(u[2..]);
        EncodeCons(FromPair(u[0], u[1]), Repaired(u[2..]));
      } else {
        var c: Scalar := if IsHigh(u[0]) || IsLow(u[0]) then 0xFFFD else u[0];
        assert EncodeChar(0xFFFD) == REPLACEMENT;
        EncodeUnitsIsRepaired(u[1..]);
        EncodeCons(c, Repaired(u[1..]));
      }
    }
  }

  lemma RepairedOfChar(c: Scalar, rest: Units)
    ensures Repaired(ToUnits(c) + rest) == [c] + Repaired(rest)
  {
    var u := ToUnits(c) + rest;
    if c < 0x1_0000 {
      assert u[1..] == rest;
    } else {
      assert u[2..] == rest;
      var hi, lo := (c - 0x1_0000) / 0x400, (c - 0x1_0000) % 0x400;
      assert c == 0x1_0000 + hi * 0x400 + lo;
    }
  }

  /** Code units that come from a text need no repair. */
  lemma {:induction false} RepairedOfText(s: Text)
    ensures Repaired(Utf16(s)) == s
  {
    if s != [] {
      RepairedOfText(s[1..]);
      RepairedOfChar(s[0], Utf16(s[1..]));
      assert s == [s[0]] + s[1..];
    }
  }

  // ---------------------------------------------------------------- in plain terms

  /** Six bits behind the mark of a continuation octet. */
  predicate Continues(b: int) {
    0x80 <= b < 0xC0
  }

  /** The octets of a character: the table in section 3 of RFC 3629. */
  lemma EncodeCharExactly(c: Scalar)
    ensures c <= 0x7F ==> EncodeChar(c) == [c]
    ensures 0x80 <= c <= 0x7FF ==>
              && |EncodeChar(c)| == 2
              && var x: int, y: int := EncodeChar(c)[0], EncodeChar(c)[1];
                 0xC0 <= x < 0xE0 && Continues(y) && c == (x - 0xC0) * 0x40 + (y - 0x80)
    ensures 0x800 <= c <= 0xFFFF ==>
              && |EncodeChar(c)| == 3
              && var x: int, y: int, z: int := EncodeChar(c)[0], EncodeChar(c)[1], EncodeChar(c)[2];
                 0xE0 <= x < 0xF0 && Continues(y) && Continues(z)
                 && c == (x - 0xE0) * 0x1000 + (y - 0x80) * 0x40 + (z - 0x80)
    ensures 0x1_0000 <= c ==>
              && |EncodeChar(c)| == 4
              && var w: int, x: int, y: int, z: int := EncodeChar(c)[0], EncodeChar(c)[1], EncodeChar(c)[2], EncodeChar(c)[3];
                 0xF0 <= w < 0xF8 && Continues(x) && Continues(y) && Continues(z)
                 && c == (w - 0xF0) * 0x4_0000 + (x - 0x80) * 0x1000 + (y - 0x80) * 0x40 + (z - 0x80)
  {
    SixBits(c, c / 0x40);
    SixBits(c / 0x40, c / 0x1000);
    SixBits(c / 0x1000, c / 0x4_0000);
  }

  lemma SixBits(n: nat, q: nat)
    requires q == n / 0x40
    ensures n == q * 0x40 + n % 0x40
  {
  }

  /** The code units of a character: section 2.1 of RFC 2781. */
  lemma ToUnitsExactly(c: Scalar)
    ensures c < 0x1_0000 ==> ToUnits(c) == [c]
    ensures c >= 0x1_0000 ==>
              && |ToUnits(c)| == 2
              && 0xD800 <= ToUnits(c)[0] <= 0xDBFF && 0xDC00 <= ToUnits(c)[1] <= 0xDFFF
              && var high: int, low: int := ToUnits(c)[0], ToUnits(c)[1];
                 c == 0x1_0000 + (high - 0xD800) * 0x400 + (low - 0xDC00)
  {
  }

  /** Code units are encoded one text character or one lone surrogate at a time, the latter as the
      octets EF BF BD. */
  lemma EncodeUnitsStep(c: Scalar, lone: Unit, rest: Units)
    ensures EncodeUnits(ToUnits(c) + rest) == EncodeChar(c) + EncodeUnits(rest)
    ensures 0xDC00 <= lone <= 0xDFFF ==> EncodeUnits([lone] + rest) == [0xEF, 0xBF, 0xBD] + EncodeUnits(rest)
    ensures 0xD800 <= lone <= 0xDBFF && (rest == [] || !(0xDC00 <= rest[0] <= 0xDFFF)) ==>
              EncodeUnits([lone] + rest) == [0xEF, 0xBF, 0xBD] + EncodeUnits(rest)
    ensures EncodeUnits([]) == []
  {
    EncodeUnitsOfChar(c, rest);
    assert ([lone] + rest)[1..] == rest;
  }
}
