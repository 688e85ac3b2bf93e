/** The two Solidity ABI decoders of the host, with checked `usize` arithmetic. */
module Abi {
  import opened Outcomes
  import opened Octets
  import opened Hex

  datatype AbiError = InvalidHex | TooShort | InvalidOffset | Overflow | Truncated | InvalidUtf8

  predicate AllZero(b: Bytes) {
    forall i | 0 <= i < |b| :: b[i] == 0
  }

  /** `chunks_exact(32)`. */
  function Chunks(data: Bytes): seq<Hash> {
    if |data| < 32 then [] else [data[..32]] + Chunks(data[32..])
  }

  function DecodeArrayBytes(raw: Bytes): Result<seq<Hash>, AbiError> {
    if |raw| < 64 then Err(TooShort)
    else if raw[31] != 0x20 || !AllZero(raw[..31]) then Err(InvalidOffset)
    else if !AllZero(raw[32..56]) then Err(Overflow)
    else
      var count := FromBE(raw[56..64]);
      if count * 32 + 64 >= U64 then Err(Overflow)
      else if |raw| < count * 32 + 64 then Err(Truncated)
      else Ok(Chunks(raw[64..count * 32 + 64]))
  }

  function DecodeBytes32Array(hex: string): Result<seq<Hash>, AbiError> {
    match HexDecode(Strip0x(hex))
    case None => Err(InvalidHex)
    case Some(raw) => DecodeArrayBytes(raw)
  }

  /** The string's bytes. An answer that points outside the data counts as the empty string. */
  function DecodeAbiString(raw: Bytes, validUtf8: Bytes -> bool): Result<Bytes, AbiError> {
    if |raw| < 64 then Ok([])
    else
      var offset := FromBE(raw[24..32]);
      if offset + 32 >= U64 then Err(Overflow)
      else if |raw| < offset + 32 then Ok([])
      else
        var len := FromBE(raw[offset + 24..offset + 32]);
        var end := offset + 32 + len;
        if end >= U64 then Err(Overflow)
        else if |raw| < end then Ok([])
        else if validUtf8(raw[offset + 32..end]) then Ok(raw[offset + 32..end])
        else Err(InvalidUtf8)
  }

  // ---------------------------------------------------------------- encodings

  function Flatten(words: seq<Hash>): (b: Bytes)
    ensures |b| == 32 * |words|
  {
    if |words| == 0 then [] else words[0] + Flatten(words[1..])
  }

  function EncodeArray(words: seq<Hash>): Bytes {
    ToBE(0x20, 32) + ToBE(|words|, 32) + Flatten(words)
  }

  function EncodeString(text: Bytes, padding: Bytes): Bytes {
    ToBE(0x20, 32) + ToBE(|text|, 32) + text + padding
  }

  // ---------------------------------------------------------------- words

  /** A small number in a wide word is zeros and then its narrow form. */
  lemma {:induction false} WideWord(n: nat, j: nat, k: nat)
    requires n < Pow256(j) && j <= k
    ensures ToBE(n, k) == Fill(0, k - j) + ToBE(n, j)
    decreases k
  {
    if j == 0 {
      ZeroWord(k);
      assert Fill(0, k) + [] == Fill(0, k);
    } else {
      WideWord(n / 256, j - 1, k - 1);
      assert (Fill(0, k - j) + ToBE(n / 256, j - 1)) + [n % 256] == Fill(0, k - j) + (ToBE(n / 256, j - 1) + [n % 256]);
    }
  }

  lemma {:induction false} ZeroWord(k: nat)
    ensures ToBE(0, k) == Fill(0, k)
  {
    if k > 0 {
      ZeroWord(k - 1);
      assert ToBE(0, k) == ToBE(0, k - 1) + [0];
    }
  }

  lemma ZerosAreFill(b: Bytes)
    requires AllZero(b)
    ensures b == Fill(0, |b|)
  {
  }

  /** The eight low bytes of a word whose other bytes are zero spell it. */
  lemma CountWord(n: nat, word: Bytes)
    requires |word| == 32
    ensures word == ToBE(n, 32) && n < U64 <==> AllZero(word[..24]) && FromBE(word[24..]) == n
  {
    Pow256Eight();
    assert word == word[..24] + word[24..];
    if n < U64 {
      WideWord(n, 8, 32);
      FromToBE(n, 8);
    }
    if AllZero(word[..24]) && FromBE(word[24..]) == n {
      FromBEBound(word[24..]);
      ZerosAreFill(word[..24]);
      ToFromBE(word[24..]);
    }
  }

  /** The offset word. */
  lemma OffsetWord(word: Bytes)
    requires |word| == 32
    ensures word == ToBE(0x20, 32) <==> word[31] == 0x20 && AllZero(word[..31])
  {
    assert Pow256(1) == 256 * Pow256(0);
    WideWord(0x20, 1, 32);
    assert ToBE(0x20, 1) == ToBE(0, 0) + [0x20];
    assert word == word[..31] + [word[31]];
    if AllZero(word[..31]) {
      ZerosAreFill(word[..31]);
    }
  }

  lemma {:induction false} ChunksOfFlatten(words: seq<Hash>)
    ensures Chunks(Flatten(words)) == words
  {
    if words != [] {
      ChunksOfFlatten(words[1..]);
      assert Flatten(words)[..32] == words[0];
      assert Flatten(words)[32..] == Flatten(words[1..]);
    }
  }

  lemma {:induction false} FlattenOfChunks(data: Bytes)
    requires |data| % 32 == 0
    ensures Flatten(Chunks(data)) == data
  {
    if data != [] {
      FlattenOfChunks(data[32..]);
      assert data == data[..32] + data[32..];
    }
  }

  // ---------------------------------------------------------------- exactness

  /** Decoding succeeds with `words` exactly when the data begins with their encoding; any
      bytes may follow. A Rust slice is shorter than 2^64, which excludes every overflow. */
  lemma ArrayDecodingExact(raw: Bytes, words: seq<Hash>)
    requires |raw| < U64
    ensures DecodeArrayBytes(raw) == Ok(words) <==> EncodeArray(words) <= raw
  {
    if EncodeArray(words) <= raw {
      EncodedArrayDecodes(raw, words);
    }
    if DecodeArrayBytes(raw) == Ok(words) {
      DecodedArrayIsPrefix(raw, words);
    }
  }

  /** The two words at the head, as the decoder looks at them. */
  lemma HeadWords(raw: Bytes, n: nat)
    requires |raw| >= 64
    ensures raw[31] == 0x20 && AllZero(raw[..31]) <==> raw[..32] == ToBE(0x20, 32)
    ensures AllZero(raw[32..56]) && FromBE(raw[56..64]) == n <==> raw[32..64] == ToBE(n, 32) && n < U64
  {
    assert raw[..32][..31] == raw[..31];
    assert raw[32..64][..24] == raw[32..56] && raw[32..64][24..] == raw[56..64];
    OffsetWord(raw[..32]);
    CountWord(n, raw[32..64]);
  }

  /** Head and words as a prefix, part by part. */
  lemma PrefixParts(raw: Bytes, a: Bytes, b: Bytes, c: Bytes, end: nat)
    requires |a| == |b| == 32 && end == 64 + |c|
    ensures a + b + c <= raw <==> end <= |raw| && raw[..32] == a && raw[32..64] == b && raw[64..end] == c
  {
    if a + b + c <= raw {
      var e := a + b + c;
      assert raw[..end] == e;
      assert raw[..32] == e[..32] == a && raw[32..64] == e[32..64] == b && raw[64..end] == e[64..] == c;
    }
    if end <= |raw| && raw[..32] == a && raw[32..64] == b && raw[64..end] == c {
      assert raw[..end] == raw[..32] + raw[32..64] + raw[64..end];
    }
  }

  lemma EncodedArrayDecodes(raw: Bytes, words: seq<Hash>)
    requires |raw| < U64 && EncodeArray(words) <= raw
    ensures DecodeArrayBytes(raw) == Ok(words)
  {
    var n := |words|;
    PrefixParts(raw, ToBE(0x20, 32), ToBE(n, 32), Flatten(words), 64 + 32 * n);
    HeadWords(raw, n);
    ChunksOfFlatten(words);
    DecodesByParts(raw, n, raw[64..64 + 32 * n]);
  }

  lemma DecodesByParts(raw: Bytes, n: nat, data: Bytes)
    requires 64 + 32 * n <= |raw| < U64 && data == raw[64..64 + 32 * n]
    requires raw[31] == 0x20 && AllZero(raw[..31])
    requires AllZero(raw[32..56]) && FromBE(raw[56..64]) == n
    ensures DecodeArrayBytes(raw) == Ok(Chunks(data))
  {
  }

  lemma DecodedArrayIsPrefix(raw: Bytes, words: seq<Hash>)
    requires DecodeArrayBytes(raw) == Ok(words)
    ensures EncodeArray(words) <= raw
  {
    var n := FromBE(raw[56..64]);
    var data := raw[64..n * 32 + 64];
    HeadWords(raw, n);
    FlattenOfChunks(data);
    assert |words| == n;
    PrefixParts(raw, ToBE(0x20, 32), ToBE(n, 32), data, n * 32 + 64);
  }

  /** The same through hexadecimal text, with or without its prefix, in either case: decoding
      yields `words` exactly for the texts that spell their encoding and any bytes after it. */
  lemma ArrayTextExact(hex: string, words: seq<Hash>)
    requires |hex| < U64
    ensures DecodeBytes32Array(hex) == Ok(words)
        <==> exists trailing :: Lower(Strip0x(hex)) == HexEncode(EncodeArray(words) + trailing)
  {
    var text := Strip0x(hex);
    if DecodeBytes32Array(hex) == Ok(words) {
      var raw := HexDecode(text).value;
      HexDecodeExact(text, raw);
      ArrayDecodingExact(raw, words);
      var trailing := raw[|EncodeArray(words)|..];
      assert raw == EncodeArray(words) + trailing;
    }
    if trailing :| Lower(text) == HexEncode(EncodeArray(words) + trailing) {
      var raw := EncodeArray(words) + trailing;
      HexDecodeExact(text, raw);
      ArrayDecodingExact(raw, words);
    }
  }

  // ---------------------------------------------------------------- strings

  /** The low eight bytes of the word at `at` spell `n`; the decoder looks at no others. */
  predicate WordIs(raw: Bytes, at: nat, n: nat) {
    n < U64 && at + 32 <= |raw| && raw[at + 24..at + 32] == ToBE(n, 8)
  }

  lemma WordIsExact(raw: Bytes, at: nat, n: nat)
    requires at + 32 <= |raw|
    ensures WordIs(raw, at, n) <==> FromBE(raw[at + 24..at + 32]) == n
  {
    var word := raw[at + 24..at + 32];
    Pow256Eight();
    FromBEBound(word);
    ToFromBE(word);
    if n < U64 {
      FromToBE(n, 8);
    }
  }

  /** The first word points to a length word that `text` follows. */
  predicate PointsTo(raw: Bytes, offset: nat, text: Bytes) {
    && |raw| >= 64
    && WordIs(raw, 0, offset)
    && WordIs(raw, offset, |text|)
    && offset + 32 + |text| <= |raw|
    && raw[offset + 32..offset + 32 + |text|] == text
  }

  /** The data ends before the length word or before the end of the text. */
  predicate EndsEarly(raw: Bytes, offset: nat, len: nat) {
    && WordIs(raw, 0, offset) && offset + 32 < U64
    && (|raw| < offset + 32 || (WordIs(raw, offset, len) && |raw| < offset + 32 + len < U64))
  }

  /** An end lies beyond what a `usize` holds. */
  predicate EndOverflows(raw: Bytes, offset: nat, len: nat) {
    && WordIs(raw, 0, offset)
    && (offset + 32 >= U64 || (WordIs(raw, offset, len) && offset + 32 + len >= U64))
  }

  /** Everything the string decoder can answer, and exactly when: a text that is pointed to, if it
      is valid UTF-8, and else an error; the empty string for data that ends early; an error for
      ends beyond 64 bits. */
  lemma StringDecodingExact(raw: Bytes, text: Bytes, validUtf8: Bytes -> bool)
    requires |raw| < U64 && validUtf8([])
    ensures text != [] ==>
              (DecodeAbiString(raw, validUtf8) == Ok(text)
               <==> validUtf8(text) && exists offset :: PointsTo(raw, offset, text))
    ensures DecodeAbiString(raw, validUtf8) == Ok([])
        <==> || |raw| < 64
             || (exists offset, len :: EndsEarly(raw, offset, len))
             || (exists offset :: PointsTo(raw, offset, []))
    ensures DecodeAbiString(raw, validUtf8) == Err(Overflow)
        <==> |raw| >= 64 && exists offset, len :: EndOverflows(raw, offset, len)
    ensures DecodeAbiString(raw, validUtf8) == Err(InvalidUtf8)
        <==> exists offset, invalid :: PointsTo(raw, offset, invalid) && !validUtf8(invalid)
  {
    if |raw| >= 64 {
      var offset := FromBE(raw[24..32]);
      FirstWord(raw, offset);
      if offset + 32 > |raw| {
        BeyondData(raw, offset);
      } else {
        var len := FromBE(raw[offset + 24..offset + 32]);
        LengthWord(raw, offset, len);
        if offset + 32 + len <= |raw| {
          assert PointsTo(raw, offset, raw[offset + 32..offset + 32 + len]);
        } else if offset + 32 + len < U64 {
          assert EndsEarly(raw, offset, len);
        } else {
          assert EndOverflows(raw, offset, len);
        }
      }
    }
  }

  /** The first word spells one number only. */
  lemma FirstWord(raw: Bytes, offset: nat)
    requires |raw| >= 64 && offset == FromBE(raw[24..32])
    ensures forall n: nat :: WordIs(raw, 0, n) <==> n == offset
  {
    forall n: nat ensures WordIs(raw, 0, n) <==> n == offset {
      WordIsExact(raw, 0, n);
    }
  }

  lemma LengthWord(raw: Bytes, offset: nat, len: nat)
    requires offset + 32 <= |raw| && len == FromBE(raw[offset + 24..offset + 32])
    ensures forall n: nat :: WordIs(raw, offset, n) <==> n == len
  {
    forall n: nat ensures WordIs(raw, offset, n) <==> n == len {
      WordIsExact(raw, offset, n);
    }
  }

  lemma BeyondData(raw: Bytes, offset: nat)
    requires WordIs(raw, 0, offset) && offset + 32 > |raw|
    ensures if offset + 32 >= U64 then EndOverflows(raw, offset, 0) else EndsEarly(raw, offset, 0)
  {
  }

  lemma StringRoundTrip(text: Bytes, padding: Bytes, validUtf8: Bytes -> bool)
    requires validUtf8(text) && |EncodeString(text, padding)| < U64
    ensures DecodeAbiString(EncodeString(text, padding), validUtf8) == Ok(text)
  {
    var raw := EncodeString(text, padding);
    assert raw[..32] == ToBE(0x20, 32) && raw[32..64] == ToBE(|text|, 32);
    CountWord(0x20, raw[..32]);
    CountWord(|text|, raw[32..64]);
    assert raw[24..32] == raw[..32][24..];
    assert raw[56..64] == raw[32..64][24..];
    assert raw[64..64 + |text|] == text;
  }

  // ---------------------------------------------------------------- errors of the array decoder

  /** Every error of the array decoder, and exactly when: no two words; a first word other than 32; a
      count whose end exceeds 64 bits; data that ends before it. */
  lemma ArrayErrorsExactly(raw: Bytes)
    requires |raw| < U64
    ensures DecodeArrayBytes(raw) == Err(TooShort) <==> |raw| < 64
    ensures DecodeArrayBytes(raw) == Err(InvalidOffset) <==> |raw| >= 64 && raw[..32] != ToBE(32, 32)
    ensures DecodeArrayBytes(raw) == Err(Overflow)
        <==> |raw| >= 64 && raw[..32] == ToBE(32, 32) && FromBE(raw[32..64]) * 32 + 64 >= U64
    ensures DecodeArrayBytes(raw) == Err(Truncated)
        <==> |raw| >= 64 && raw[..32] == ToBE(32, 32) && |raw| < FromBE(raw[32..64]) * 32 + 64 < U64
    ensures DecodeArrayBytes(raw).Err? ==>
              DecodeArrayBytes(raw).error in {TooShort, InvalidOffset, Overflow, Truncated}
  {
    if |raw| >= 64 {
      HeadWords(raw, FromBE(raw[56..64]));
      CountOfWord(raw[32..64], raw[32..56], raw[56..64]);
    }
  }

  /** A count with a non-zero byte among its first 24 is at least 2^64, any other its last eight. */
  lemma CountOfWord(word: Bytes, high: Bytes, low: Bytes)
    requires |high| == 24 && |low| == 8 && word == high + low
    ensures AllZero(high) ==> FromBE(word) == FromBE(low)
    ensures !AllZero(high) ==> FromBE(word) >= U64
  {
    Pow256Eight();
    FromBEAppend(high, low);
    if AllZero(high) {
      ZeroValue(high);
    } else {
      NonZeroValue(high);
    }
  }

  lemma {:induction false} FromBEAppend(a: Bytes, b: Bytes)
    ensures FromBE(a + b) == FromBE(a) * Pow256(|b|) + FromBE(b)
  {
    if b == [] {
      assert a + b == a;
    } else {
      var n := |b| - 1;
      FromBEAppend(a, b[..n]);
      assert a + b == (a + b[..n]) + [b[n]];
      FromBESnoc(a + b[..n], b[n]);
      assert FromBE(a) * Pow256(n) * 256 == FromBE(a) * Pow256(|b|);
    }
  }

  lemma {:induction false} ZeroValue(b: Bytes)
    requires AllZero(b)
    ensures FromBE(b) == 0
  {
    if b != [] {
      ZeroValue(b[..|b| - 1]);
    }
  }

  lemma {:induction false} NonZeroValue(b: Bytes)
    requires !AllZero(b)
    ensures FromBE(b) >= 1
  {
    var n := |b| - 1;
    if !AllZero(b[..n]) {
      NonZeroValue(b[..n]);
    } else if b[n] == 0 {
      assert forall i | 0 <= i < n :: b[i] == b[..n][i];
      assert AllZero(b);
    }
  }

  /** Text that is not hexadecimal, and no other, is reported as such. */
  lemma InvalidHexExactly(hex: string)
    ensures DecodeBytes32Array(hex) == Err(InvalidHex) <==> forall raw :: Lower(Strip0x(hex)) != HexEncode(raw)
  {
    var text := Strip0x(hex);
    if HexDecode(text).Some? {
      HexDecodeExact(text, HexDecode(text).value);
    } else {
      forall raw ensures Lower(text) != HexEncode(raw) {
        HexDecodeExact(text, raw);
      }
    }
  }
}
