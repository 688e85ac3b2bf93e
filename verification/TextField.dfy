/** Text in 32 bytes: the circuit's encoding of certificate fields and the three browser
    functions that must produce or read the same bytes. */
module TextField {
  import opened Outcomes
  import opened Octets
  import opened Hex
  import opened Utf8

  /** Right-padded with zeros. */
  function Pad(b: Bytes): Hash
    requires |b| <= 32
  {
    b + Fill(0, 32 - |b|)
  }

  // ---------------------------------------------------------------- the circuit

  /** How many leading characters fit a budget of bytes, taking each that fits and
      stopping at the first that does not. */
  function FitCount(s: Text, budget: nat): (k: nat)
    ensures k <= |s|
  {
    if |s| == 0 || CharLen(s[0]) > budget then 0
    else 1 + FitCount(s[1..], budget - CharLen(s[0]))
  }

  /** The longest prefix of whole characters within 32 bytes. */
  function Kept(s: Text): Text {
    s[..FitCount(s, 32)]
  }

  /** `k` is where the text must be cut: that much fits, and one character more does not. */
  predicate IsLongestFit(s: Text, k: nat, budget: nat) {
    && k <= |s|
    && |Encode(s[..k])| <= budget
    && (k < |s| ==> |Encode(s[..k])| + CharLen(s[k]) > budget)
  }

  lemma {:induction false} FitCountIsLongest(s: Text, budget: nat)
    ensures IsLongestFit(s, FitCount(s, budget), budget)
    decreases |s|
  {
    var k := FitCount(s, budget);
    if k > 0 {
      FitCountIsLongest(s[1..], budget - CharLen(s[0]));
      assert s[..k][1..] == s[1..][..k - 1];
    }
  }

  /** Every prefix within the budget is at most that long. */
  lemma {:induction false} FitCountIsMaximal(s: Text, j: nat, budget: nat)
    requires j <= |s| && |Encode(s[..j])| <= budget
    ensures j <= FitCount(s, budget)
    decreases |s|
  {
    if j > 0 {
      assert s[..j][1..] == s[1..][..j - 1];
      FitCountIsMaximal(s[1..], j - 1, budget - CharLen(s[0]));
    }
  }

  lemma KeptFits(s: Text)
    ensures |Encode(Kept(s))| <= 32
  {
    FitCountIsLongest(s, 32);
  }

  /** The field value: zero without a value, else the kept prefix, padded. */
  function CircuitField(val: Option<Text>): Hash {
    match val
    case None => ZERO
    case Some(s) =>
      KeptFits(s);
      Pad(Encode(Kept(s)))
  }

  /** `encode_utf8(&mut out[offset..])`. */
  method WriteAt(out: array<byte>, offset: nat, code: Bytes)
    requires offset + |code| <= out.Length
    modifies out
    ensures out[..] == old(out[..])[..offset] + code + old(out[..])[offset + |code|..]
  {
    forall j | 0 <= j < |code| {
      out[offset + j] := code[j];
    }
  }

  /** One more character, in the buffer and in the count. */
  lemma TakeOne(s: Text, i: nat, offset: nat)
    requires i < |s| && offset == |Encode(s[..i])| && offset + CharLen(s[i]) <= 32
    ensures Encode(s[..i + 1]) == Encode(s[..i]) + EncodeChar(s[i])
    ensures FitCount(s[i..], 32 - offset) == 1 + FitCount(s[i + 1..], 32 - offset - CharLen(s[i]))
  {
    assert s[..i + 1] == s[..i] + [s[i]];
    EncodeSnoc(s[..i], s[i]);
    assert s[i..][1..] == s[i + 1..];
  }

  /** What the loop keeps: the characters before `i` are in the buffer, and the rest of the count
      is still to come. */
  predicate Written(s: Text, i: nat, offset: nat, buf: Bytes) {
    && i <= |s| && offset <= 32
    && i + FitCount(s[i..], 32 - offset) == FitCount(s, 32)
    && offset == |Encode(s[..i])|
    && buf == Encode(s[..i]) + Fill(0, 32 - offset)
  }

  lemma WrittenStep(s: Text, i: nat, offset: nat, before: Bytes, after: Bytes, len: nat)
    requires Written(s, i, offset, before) && i < |s| && len == CharLen(s[i]) && offset + len <= 32
    requires after == before[..offset] + EncodeChar(s[i]) + before[offset + len..]
    ensures Written(s, i + 1, offset + len, after)
  {
    TakeOne(s, i, offset);
    BufferStep(before, Encode(s[..i]), EncodeChar(s[i]));
  }

  /** Writing one more character behind the encoding so far. */
  lemma BufferStep(buf: Bytes, enc: Bytes, code: Bytes)
    requires |enc| + |code| <= 32 && buf == enc + Fill(0, 32 - |enc|)
    ensures buf[..|enc|] + code + buf[|enc| + |code|..] == (enc + code) + Fill(0, 32 - |enc| - |code|)
  {
  }

  /** Where the loop stops, the kept characters are in the buffer. */
  lemma Finished(s: Text, i: nat, offset: nat, buf: Bytes)
    requires Written(s, i, offset, buf)
    requires i < |s| ==> offset + CharLen(s[i]) > 32
    ensures buf == CircuitField(Some(s))
  {
    assert i < |s| ==> s[i..][0] == s[i];
  }

  /** `to_bytes32` in the guest. */
  method ToBytes32(val: Option<Text>) returns (field: Hash)
    ensures field == CircuitField(val)
  {
    var out := new byte[32](_ => 0);
    assert out[..] == Fill(0, 32);
    if val.Some? {
      var s := val.value;
      var offset: nat := 0;
      var i := 0;
      assert s[..0] == [] && s[0..] == s;
      while i < |s|
        invariant 0 <= i <= |s| && offset <= 32 && Written(s, i, offset, out[..])
      {
        var len := CharLen(s[i]);
        if offset + len > 32 {
          break;
        }
        ghost var before := out[..];
        WriteAt(out, offset, EncodeChar(s[i]));
        WrittenStep(s, i, offset, before, out[..], len);
        offset := offset + len;
        i := i + 1;
      }
      Finished(s, i, offset, out[..]);
    }
    return out[..];
  }

  // ---------------------------------------------------------------- the browser's truncation

  /** The number of code units left when units are dropped from the end until the rest fits. */
  function TrimmedCount(u: Units): (k: nat)
    ensures k <= |u|
    ensures |EncodeUnits(u[..k])| <= 32
  {
    if |EncodeUnits(u)| <= 32 then
      assert u[..|u|] == u;
      |u|
    else
      var k := TrimmedCount(u[..|u| - 1]);
      assert u[..|u| - 1][..k] == u[..k];
      k
  }

  function BrowserField(u: Units): Hash {
    Pad(EncodeUnits(u[..TrimmedCount(u)]))
  }

  /** `toBytes32` of the page that creates a registry. */
  method BrowserToBytes32(u: Units) returns (field: Hash)
    ensures field == BrowserField(u)
  {
    if u == [] {
      return ZERO;
    }
    var truncated := u;
    while |EncodeUnits(truncated)| > 32
      invariant |truncated| <= |u| && truncated == u[..|truncated|]
      invariant TrimmedCount(truncated) == TrimmedCount(u)
      decreases |truncated|
    {
      assert truncated[..|truncated| - 1] == u[..|truncated| - 1];
      truncated := truncated[..|truncated| - 1];
    }
    var utf8 := EncodeUnits(truncated);
    var padded := Fill(0, 32);
    padded := utf8 + padded[|utf8|..];
    assert padded == Pad(utf8);
    return padded;
  }

  // ---------------------------------------------------------------- the two agree, except

  /** Some prefix takes exactly 29 bytes and a character of two code units follows it. */
  predicate SplitsPair(s: Text) {
    exists k :: 0 <= k < |s| && |Encode(s[..k])| == 29 && s[k] >= 0x1_0000
  }

  /** The cut falls on a character of two code units with exactly three bytes to spare: then
      the browser keeps half of the character, and three bytes of replacement fit. */
  predicate CutSplitsPair(s: Text) {
    var k := FitCount(s, 32);
    && k < |s|
    && s[k] >= 0x1_0000
    && |Encode(s[..k])| == 29
  }

  /** Such a prefix can only end where the circuit cuts. */
  lemma SplitIsAtCut(s: Text)
    ensures SplitsPair(s) <==> CutSplitsPair(s)
  {
    if k :| 0 <= k < |s| && |Encode(s[..k])| == 29 && s[k] >= 0x1_0000 {
      var fit := FitCount(s, 32);
      FitCountIsMaximal(s, k, 32);
      FitCountIsLongest(s, 32);
      if k < fit {
        assert s[..fit] == s[..k] + ([s[k]] + s[k + 1..fit]);
        EncodeAppend(s[..k], [s[k]] + s[k + 1..fit]);
        EncodeCons(s[k], s[k + 1..fit]);
      }
    }
  }

  lemma UnitsPrefix(s: Text, k: nat)
    requires k <= |s|
    ensures Utf16(s) == Utf16(s[..k]) + Utf16(s[k..])
  {
    assert s == s[..k] + s[k..];
    UnitsOfParts(s, s[..k], s[k..]);
  }

  lemma UnitsOfParts(s: Text, front: Text, back: Text)
    requires s == front + back
    ensures Utf16(s) == Utf16(front) + Utf16(back)
  {
    Utf16Append(front, back);
  }

  lemma {:induction false} TrimmedCountOfPrefix(u: Units, k: nat)
    requires k <= |u|
    requires |EncodeUnits(u[..k])| <= 32
    requires forall j | k < j <= |u| :: |EncodeUnits(u[..j])| > 32
    ensures TrimmedCount(u) == k
    decreases |u|
  {
    assert u[..|u|] == u;
    if k < |u| {
      var v := u[..|u| - 1];
      assert v[..k] == u[..k];
      forall j | k < j <= |v| ensures |EncodeUnits(v[..j])| > 32 {
        assert v[..j] == u[..j];
      }
      TrimmedCountOfPrefix(v, k);
    }
  }

  /** A cut of the UTF-16 form that keeps the whole first character. */
  lemma CutPastFirst(s: Text, j: nat)
    requires s != [] && |ToUnits(s[0])| <= j <= |Utf16(s)|
    ensures |EncodeUnits(Utf16(s)[..j])| >= CharLen(s[0])
  {
    CutPastChar(s[0], Utf16(s[1..]), j);
  }

  lemma CutPastChar(c: Scalar, rest: Units, j: nat)
    requires |ToUnits(c)| <= j <= |ToUnits(c) + rest|
    ensures |EncodeUnits((ToUnits(c) + rest)[..j])| >= CharLen(c)
  {
    var n := |ToUnits(c)|;
    assert (ToUnits(c) + rest)[..j] == ToUnits(c) + rest[..j - n];
    EncodeUnitsOfChar(c, rest[..j - n]);
  }

  /** After `b` kept bytes every longer cut is too long, even one through a pair: it ends in
      another character, whole or as a replacement of three bytes. */
  lemma LongerCutsTooLong(s: Text, b: nat, j: nat)
    requires s != [] && 0 < j <= |Utf16(s)|
    requires b + CharLen(s[0]) > 32
    requires s[0] >= 0x1_0000 ==> b != 29
    ensures b + |EncodeUnits(Utf16(s)[..j])| > 32
  {
    if j < |ToUnits(s[0])| {
      assert Utf16(s)[..j] == [ToUnits(s[0])[0]];
      assert EncodeUnits([ToUnits(s[0])[0]]) == REPLACEMENT + EncodeUnits([]);
    } else {
      CutPastFirst(s, j);
    }
  }

  /** Cuts of the whole form beyond the kept characters are cuts of the rest. */
  lemma CutBeyondKept(s: Text, k: nat, j: nat)
    requires k <= |s| && j <= |Utf16(s[k..])| && |Utf16(s[..k])| + j <= |Utf16(s)|
    ensures |EncodeUnits(Utf16(s)[..|Utf16(s[..k])| + j])| == |Encode(s[..k])| + |EncodeUnits(Utf16(s[k..])[..j])|
  {
    UnitsPrefix(s, k);
    assert Utf16(s)[..|Utf16(s[..k])| + j] == Utf16(s[..k]) + Utf16(s[k..])[..j];
    EncodeUnitsOfText(s[..k], Utf16(s[k..])[..j]);
  }

  /** Without a split pair every cut beyond the kept characters is too long. */
  lemma CutAfterKept(s: Text, j: nat)
    requires !CutSplitsPair(s)
    requires var m := |Utf16(s[..FitCount(s, 32)])|; 0 < j && m + j <= |Utf16(s)|
    ensures |EncodeUnits(Utf16(s)[..|Utf16(s[..FitCount(s, 32)])| + j])| > 32
  {
    var k := FitCount(s, 32);
    FitCountIsLongest(s, 32);
    UnitsPrefix(s, k);
    CutBeyondKept(s, k, j);
    assert s[k..] != [] && s[k..][0] == s[k];
    LongerCutsTooLong(s[k..], |Encode(s[..k])|, j);
  }

  /** Without a split pair the browser stops trimming at the kept characters. */
  lemma TrimmedToKept(s: Text)
    requires !CutSplitsPair(s)
    ensures TrimmedCount(Utf16(s)) == |Utf16(Kept(s))|
  {
    var u := Utf16(s);
    var m := |Utf16(Kept(s))|;
    KeptUnits(s);
    forall j | m < j <= |u| ensures |EncodeUnits(u[..j])| > 32 {
      CutAfterKept(s, j - m);
      assert m + (j - m) == j;
    }
    TrimmedCountOfPrefix(u, m);
  }

  /** The kept characters are a prefix of the units, and encode the same either way. */
  lemma KeptUnits(s: Text)
    ensures |Utf16(Kept(s))| <= |Utf16(s)|
    ensures Utf16(s)[..|Utf16(Kept(s))|] == Utf16(Kept(s))
    ensures EncodeUnits(Utf16(Kept(s))) == Encode(Kept(s))
    ensures |Encode(Kept(s))| <= 32
  {
    KeptFits(s);
    UnitsPrefix(s, FitCount(s, 32));
    EncodeUnitsOfWhole(Kept(s));
  }

  lemma TrimsToKept(s: Text)
    requires !CutSplitsPair(s)
    ensures BrowserField(Utf16(s)) == CircuitField(Some(s))
  {
    TrimmedToKept(s);
    KeptUnits(s);
  }

  /** With a split pair, one unit beyond the kept characters is the pair's first half. */
  lemma HalfKept(s: Text)
    requires CutSplitsPair(s)
    ensures var m, high := |Utf16(Kept(s))|, ToUnits(s[FitCount(s, 32)])[0];
            m + 2 <= |Utf16(s)| && Utf16(s)[..m + 1] == Utf16(Kept(s)) + [high]
  {
    var k := FitCount(s, 32);
    UnitsPrefix(s, k);
    assert s[k..][0] == s[k];
    assert Utf16(s[k..]) == ToUnits(s[k]) + Utf16(s[k..][1..]);
  }

  lemma CutAfterPair(s: Text, j: nat)
    requires CutSplitsPair(s)
    requires 2 <= j && |Utf16(Kept(s))| + j <= |Utf16(s)|
    ensures |EncodeUnits(Utf16(s)[..|Utf16(Kept(s))| + j])| > 32
  {
    var k := FitCount(s, 32);
    UnitsPrefix(s, k);
    CutBeyondKept(s, k, j);
    CutPastPair(s[k..], j);
  }

  lemma CutPastPair(s: Text, j: nat)
    requires s != [] && s[0] >= 0x1_0000 && 2 <= j <= |Utf16(s)|
    ensures |EncodeUnits(Utf16(s)[..j])| >= 4
  {
    CutPastFirst(s, j);
  }

  /** With a split pair the browser keeps one unit more, which encodes as a replacement. */
  lemma TrimsIntoPair(s: Text)
    requires CutSplitsPair(s)
    ensures BrowserField(Utf16(s)) == Encode(Kept(s)) + REPLACEMENT
  {
    HalfKept(s);
    EncodeUnitsOfCut(Kept(s), ToUnits(s[FitCount(s, 32)])[0]);
    TrimmedIntoPair(s, |Utf16(Kept(s))|);
    var b := Encode(Kept(s)) + REPLACEMENT;
    assert b + Fill(0, 0) == b;
  }

  lemma TrimmedIntoPair(s: Text, m: nat)
    requires CutSplitsPair(s) && m == |Utf16(Kept(s))| && m + 1 <= |Utf16(s)|
    requires |EncodeUnits(Utf16(s)[..m + 1])| <= 32
    ensures TrimmedCount(Utf16(s)) == m + 1
  {
    var u := Utf16(s);
    forall j | m + 1 < j <= |u| ensures |EncodeUnits(u[..j])| > 32 {
      CutAfterPair(s, j - m);
      assert m + (j - m) == j;
    }
    TrimmedCountOfPrefix(u, m + 1);
  }

  /** The page's claim to match the circuit holds for exactly the texts whose cut does not
      split a surrogate pair with three bytes to spare. */
  lemma TruncationsAgreeExactly(s: Text)
    ensures BrowserField(Utf16(s)) == CircuitField(Some(s)) <==> !SplitsPair(s)
  {
    SplitIsAtCut(s);
    if SplitsPair(s) {
      TrimsIntoPair(s);
      KeptFits(s);
      var b := Encode(Kept(s));
      assert (b + REPLACEMENT)[29] == 0xEF;
      assert Pad(b)[29] == Fill(0, 3)[0];
    } else {
      TrimsToKept(s);
    }
  }

  /** In particular for every text without characters above U+FFFF. */
  lemma TruncationsAgreeOnBmp(s: Text)
    requires forall c | c in s :: c < 0x1_0000
    ensures BrowserField(Utf16(s)) == CircuitField(Some(s))
  {
    assert FitCount(s, 32) < |s| ==> s[FitCount(s, 32)] in s;
    TrimsToKept(s);
  }

  /** A text where the claim fails: 29 letters and one character outside the basic plane. */
  lemma DisagreementExists()
    ensures BrowserField(Utf16(Letters(29) + [0x1_F600])) != CircuitField(Some(Letters(29) + [0x1_F600]))
  {
    var s := Letters(29) + [0x1_F600];
    LettersFit(29, 32, [0x1_F600]);
    LettersLength(29);
    assert s[..29] == Letters(29);
    assert SplitsPair(s);
    TruncationsAgreeExactly(s);
  }

  function Letters(n: nat): (s: Text)
    ensures |s| == n
  {
    if n == 0 then [] else [0x61] + Letters(n - 1)
  }

  lemma {:induction false} LettersFit(n: nat, budget: nat, rest: Text)
    requires n <= budget
    requires rest != [] ==> CharLen(rest[0]) > budget - n
    ensures FitCount(Letters(n) + rest, budget) == n
  {
    if n > 0 {
      assert (Letters(n) + rest)[1..] == Letters(n - 1) + rest;
      LettersFit(n - 1, budget - 1, rest);
    } else {
      assert Letters(n) + rest == rest;
    }
  }

  lemma {:induction false} LettersLength(n: nat)
    ensures |Encode(Letters(n))| == n
  {
    if n > 0 {
      LettersLength(n - 1);
      assert Letters(n)[1..] == Letters(n - 1);
    }
  }

  // ---------------------------------------------------------------- stringToBytes32 and back

  datatype TextError = TooLong

  /** White space and line terminators that `trim` removes. */
  predicate IsSpace(u: Unit) {
    || 0x09 <= u <= 0x0D || u == 0x20 || u == 0xA0 || u == 0x1680
    || 0x2000 <= u <= 0x200A || u == 0x2028 || u == 0x2029 || u == 0x202F
    || u == 0x205F || u == 0x3000 || u == 0xFEFF
  }

  function Trim(u: Units): (r: Units)
    ensures r != [] ==> !IsSpace(r[0])
  {
    if |u| == 0 then []
    else if IsSpace(u[0]) then Trim(u[1..])
    else if IsSpace(u[|u| - 1]) then Trim(u[..|u| - 1])
    else u
  }

  predicate AllSpaces(u: Units) {
    forall i | 0 <= i < |u| :: IsSpace(u[i])
  }

  predicate NoSpaceAround(t: Units) {
    t == [] || (!IsSpace(t[0]) && !IsSpace(t[|t| - 1]))
  }

  /** `t` is the text with the spaces around it taken away. */
  ghost predicate IsBetweenSpaces(str: Units, t: Units) {
    exists a, b :: AllSpaces(a) && AllSpaces(b) && NoSpaceAround(t) && str == a + t + b
  }

  lemma BetweenSpaces(str: Units, a: Units, t: Units, b: Units)
    requires AllSpaces(a) && AllSpaces(b) && NoSpaceAround(t) && str == a + t + b
    ensures IsBetweenSpaces(str, t)
  {
  }

  /** Trimming takes away spaces on both sides, and all of them. */
  lemma {:induction false} TrimCuts(u: Units) returns (a: Units, b: Units)
    ensures AllSpaces(a) && AllSpaces(b) && NoSpaceAround(Trim(u)) && u == a + Trim(u) + b
    decreases |u|
  {
    a, b := [], [];
    if u == [] {
    } else if IsSpace(u[0]) {
      a, b := TrimCuts(u[1..]);
      OneMoreBefore(u, a, Trim(u), b);
      a := [u[0]] + a;
    } else if IsSpace(u[|u| - 1]) {
      a, b := TrimCuts(u[..|u| - 1]);
      OneMoreAfter(u, a, Trim(u), b);
      b := b + [u[|u| - 1]];
    }
  }

  lemma OneMoreBefore(u: Units, a: Units, t: Units, b: Units)
    requires u != [] && u[1..] == a + t + b
    ensures u == ([u[0]] + a) + t + b
  {
    assert u == [u[0]] + u[1..];
  }

  lemma OneMoreAfter(u: Units, a: Units, t: Units, b: Units)
    requires u != [] && u[..|u| - 1] == a + t + b
    ensures u == a + t + (b + [u[|u| - 1]])
  {
    assert u == u[..|u| - 1] + [u[|u| - 1]];
  }

  lemma {:induction false} TrimBefore(a: Units, rest: Units)
    requires AllSpaces(a)
    ensures Trim(a + rest) == Trim(rest)
  {
    if a == [] {
      assert a + rest == rest;
    } else {
      assert (a + rest)[1..] == a[1..] + rest;
      TrimBefore(a[1..], rest);
    }
  }

  lemma {:induction false} TrimAfter(t: Units, b: Units)
    requires AllSpaces(b) && t != [] && NoSpaceAround(t)
    ensures Trim(t + b) == t
    decreases |b|
  {
    if b == [] {
      assert t + b == t;
    } else {
      assert (t + b)[..|t + b| - 1] == t + b[..|b| - 1];
      TrimAfter(t, b[..|b| - 1]);
    }
  }

  /** Nothing else is left when the spaces around a text are taken away. */
  lemma TrimIsBetween(a: Units, t: Units, b: Units)
    requires AllSpaces(a) && AllSpaces(b) && NoSpaceAround(t)
    ensures Trim(a + t + b) == t
  {
    assert a + t + b == a + (t + b);
    TrimBefore(a, t + b);
    if t == [] {
      assert t + b == b && b == b + [];
      TrimBefore(b, []);
    } else {
      TrimAfter(t, b);
    }
  }

  /** So trimming gives exactly the text between the spaces. */
  lemma TrimExactly(u: Units, t: Units)
    ensures t == Trim(u) <==> IsBetweenSpaces(u, t)
  {
    var before, after := TrimCuts(u);
    if a, b :| AllSpaces(a) && AllSpaces(b) && NoSpaceAround(t) && u == a + t + b {
      TrimIsBetween(a, t, b);
    }
  }

  /** The code units of WhiteSpace and LineTerminator in ECMAScript, one by one. */
  lemma SpacesExactly(u: Unit)
    ensures IsSpace(u) <==>
            u in [0x09, 0x0A, 0x0B, 0x0C, 0x0D, 0x20, 0xA0, 0x1680, 0x2000, 0x2001, 0x2002, 0x2003, 0x2004, 0x2005,
                  0x2006, 0x2007, 0x2008, 0x2009, 0x200A, 0x2028, 0x2029, 0x202F, 0x205F, 0x3000, 0xFEFF]
  {
  }

  /** A padded text: its octets, and zeros behind them. */
  lemma PadExactly(b: Bytes, i: nat)
    requires |b| <= 32 && i < 32
    ensures Pad(b)[i] == if i < |b| then b[i] else 0
  {
  }

  /** `stringToBytes32`, for the text between the spaces. */
  method StringToBytes32(str: Units) returns (r: Result<string, TextError>)
    ensures r == if |EncodeUnits(Trim(str))| > 32 then Err(TooLong)
                 else Ok("0x" + HexEncode(Pad(EncodeUnits(Trim(str)))))
    ensures exists t :: IsBetweenSpaces(str, t)
                        && r == if |EncodeUnits(t)| > 32 then Err(TooLong) else Ok("0x" + HexEncode(Pad(EncodeUnits(t))))
  {
    ghost var a, b := TrimCuts(str);
    BetweenSpaces(str, a, Trim(str), b);
    var normalized := Trim(str);
    if normalized == [] {
      ZerosInHex(32);
      assert Pad([]) == Fill(0, 32);
      return Ok("0x" + ZeroDigits(64));
    }
    var bytes := EncodeUnits(normalized);
    if |bytes| > 32 {
      return Err(TooLong);
    }
    var padded := new byte[32](_ => 0);
    forall i | 0 <= i < |bytes| {
      padded[i] := bytes[i];
    }
    assert padded[..] == Pad(bytes);
    return Ok("0x" + HexEncode(padded[..]));
  }

  function ZeroDigits(n: nat): string {
    if n == 0 then "" else "0" + ZeroDigits(n - 1)
  }

  lemma {:induction false} ZerosInHex(n: nat)
    ensures HexEncode(Fill(0, n)) == ZeroDigits(2 * n)
  {
    if n > 0 {
      ZerosInHex(n - 1);
      assert Fill(0, n)[1..] == Fill(0, n - 1);
      TwoZeros(2 * n - 2);
    }
  }

  lemma TwoZeros(n: nat)
    ensures ZeroDigits(n + 2) == [HexDigit(0), HexDigit(0)] + ZeroDigits(n)
  {
    assert ZeroDigits(n + 1) == "0" + ZeroDigits(n);
    assert ZeroDigits(n + 2) == "0" + ZeroDigits(n + 1);
  }

  /** When the trimmed text fits, all three encoders give the same 32 bytes. */
  lemma AllEncodersAgree(str: Units, s: Text)
    requires Trim(str) == Utf16(s)
    requires |Encode(s)| <= 32
    ensures |EncodeUnits(Trim(str))| <= 32
    ensures Pad(EncodeUnits(Trim(str))) == BrowserField(Utf16(s)) == CircuitField(Some(s))
  {
    EncodeUnitsOfWhole(s);
    FittingTextIsKept(s);
    TrimsToKept(s);
  }

  lemma FittingTextIsKept(s: Text)
    requires |Encode(s)| <= 32
    ensures Kept(s) == s && !CutSplitsPair(s)
  {
    assert s[..|s|] == s;
    FitCountIsMaximal(s, |s|, 32);
  }

  predicate AllHexDigits(s: string) {
    forall c | c in s :: HexValue(c).Some?
  }

  predicate AllZeroDigits(s: string) {
    forall c | c in s :: c == '0'
  }

  /** The bytes that `bytes32ToString` hands to the text decoder: up to the first zero. */
  function LeadingBytes(digits: string): Bytes {
    if |digits| < 2 then []
    else
      var b := ByteAt(digits);
      if b == 0 then [] else [b] + LeadingBytes(digits[2..])
  }

  function ByteAt(digits: string): byte
    requires |digits| >= 2
  {
    match (HexValue(digits[0]), HexValue(digits[1]))
    case (Some(hi), Some(lo)) => hi * 16 + lo
    case _ => 0
  }

  /** `TextDecoder.decode` after its bytes are collected: empty for malformed and for zero text. */
  function TextOf(decode: Bytes -> Units, hex: string): Units {
    var digits := Strip0x(hex);
    if AllHexDigits(digits) && !AllZeroDigits(digits) then decode(LeadingBytes(digits)) else []
  }

  method Bytes32ToString(decode: Bytes -> Units, hex: string) returns (r: Units)
    ensures r == TextOf(decode, hex)
  {
    if hex == "" {
      return [];
    }
    var stripped := Strip0x(hex);
    if stripped == "" || !AllHexDigits(stripped) {
      return [];
    }
    if AllZeroDigits(stripped) {
      return [];
    }
    var bytes := CollectBytes(stripped);
    return decode(bytes);
  }

  /** The loop over pairs of digits, up to a zero byte. */
  method CollectBytes(digits: string) returns (bytes: Bytes)
    ensures bytes == LeadingBytes(digits)
  {
    bytes := [];
    var i := 0;
    assert digits[0..] == digits;
    while i + 1 < |digits|
      invariant 0 <= i <= |digits|
      invariant bytes + LeadingBytes(digits[i..]) == LeadingBytes(digits)
    {
      var b := ByteAt(digits[i..]);
      LeadingStep(bytes, digits, i, b);
      if b == 0 {
        return;
      }
      bytes := bytes + [b];
      i := i + 2;
    }
    assert bytes + [] == bytes;
  }

  lemma LeadingStep(done: Bytes, digits: string, i: nat, b: byte)
    requires i + 1 < |digits| && b == ByteAt(digits[i..])
    ensures done + LeadingBytes(digits[i..]) == if b == 0 then done else (done + [b]) + LeadingBytes(digits[i + 2..])
  {
    assert digits[i..][2..] == digits[i + 2..];
    Associates(done, [b], LeadingBytes(digits[i + 2..]));
    assert done + [] == done;
  }

  // ---------------------------------------------------------------- what comes back

  /** The bytes before the first zero. */
  function UpToZeroByte(b: Bytes): Bytes {
    if |b| == 0 || b[0] == 0 then [] else [b[0]] + UpToZeroByte(b[1..])
  }

  /** The code units before the first U+0000. */
  function UpToZero(u: Units): (r: Units)
    ensures |r| <= |u| && r == u[..|r|]
    ensures |r| == |u| <==> 0 !in u
  {
    if |u| == 0 || u[0] == 0 then [] else [u[0]] + UpToZero(u[1..])
  }

  lemma {:induction false} LeadingBytesOfHex(b: Bytes)
    ensures AllHexDigits(HexEncode(b)) && LeadingBytes(HexEncode(b)) == UpToZeroByte(b)
  {
    if b != [] {
      LeadingBytesOfHex(b[1..]);
      assert HexEncode(b)[2..] == HexEncode(b[1..]);
    }
  }

  lemma {:induction false} UpToZeroOfAppend(a: Bytes, b: Bytes)
    requires forall i | 0 <= i < |a| :: a[i] != 0
    ensures UpToZeroByte(a + b) == a + UpToZeroByte(b)
  {
    if a == [] {
      assert a + b == b;
      assert a + UpToZeroByte(b) == UpToZeroByte(b);
    } else {
      UpToZeroOfAppend(a[1..], b);
      assert a == [a[0]] + a[1..];
      Associates([a[0]], a[1..], b);
      UpToZeroCons(a[0], a[1..] + b);
      Associates([a[0]], a[1..], UpToZeroByte(b));
    }
  }

  lemma UpToZeroCons(x: byte, b: Bytes)
    requires x != 0
    ensures UpToZeroByte([x] + b) == [x] + UpToZeroByte(b)
  {
    assert ([x] + b)[1..] == b;
  }

  /** Padding with zeros and cutting at the first zero gives the text up to its first U+0000. */
  lemma {:induction false} UpToZeroOfUnits(u: Units, zeros: nat)
    ensures UpToZeroByte(EncodeUnits(u) + Fill(0, zeros)) == EncodeUnits(UpToZero(u))
    decreases |u|
  {
    if u == [] {
      assert EncodeUnits(u) + Fill(0, zeros) == Fill(0, zeros);
    } else if u[0] == 0 {
      assert (EncodeUnits(u) + Fill(0, zeros))[0] == 0;
    } else {
      var n, first := FirstUnits(u), FirstCode(u);
      UpToZeroOfUnits(u[n..], zeros);
      FirstIsKept(u);
      FirstSplits(u);
      FirstSplits(UpToZero(u));
      FirstCodeHasNoZero(u);
      ThreeParts(first, EncodeUnits(u[n..]), Fill(0, zeros));
      UpToZeroOfAppend(first, EncodeUnits(u[n..]) + Fill(0, zeros));
    }
  }

  /** The code of the first character, or of the replacement for it. */
  function FirstCode(u: Units): Bytes
    requires u != []
  {
    if IsHigh(u[0]) && |u| > 1 && IsLow(u[1]) then EncodeChar(FromPair(u[0], u[1]))
    else if IsHigh(u[0]) || IsLow(u[0]) then REPLACEMENT
    else EncodeChar(u[0])
  }

  /** The number of code units that it takes. */
  function FirstUnits(u: Units): (n: nat)
    requires u != []
    ensures 1 <= n <= |u|
  {
    if IsHigh(u[0]) && |u| > 1 && IsLow(u[1]) then 2 else 1
  }

  lemma FirstSplits(u: Units)
    requires u != []
    ensures EncodeUnits(u) == FirstCode(u) + EncodeUnits(u[FirstUnits(u)..])
  {
  }

  lemma FirstCodeHasNoZero(u: Units)
    requires u != [] && u[0] != 0
    ensures forall i | 0 <= i < |FirstCode(u)| :: FirstCode(u)[i] != 0
  {
  }

  /** Cutting at U+0000 keeps the first character whole. */
  lemma FirstIsKept(u: Units)
    requires u != [] && u[0] != 0
    ensures UpToZero(u) != [] && FirstCode(UpToZero(u)) == FirstCode(u) && FirstUnits(UpToZero(u)) == FirstUnits(u)
    ensures UpToZero(u)[FirstUnits(u)..] == UpToZero(u[FirstUnits(u)..])
  {
    var v := UpToZero(u);
    UpToZeroStep(u);
    if |u| > 1 && u[1] != 0 {
      UpToZeroStep(u[1..]);
      assert u[1..][1..] == u[2..];
      assert v[2..] == UpToZero(u[2..]);
    }
    assert v[1..] == UpToZero(u[1..]);
    SameStart(u, v);
  }

  lemma UpToZeroStep(u: Units)
    requires u != [] && u[0] != 0
    ensures UpToZero(u) == [u[0]] + UpToZero(u[1..])
    ensures |u| > 1 && u[1] == 0 ==> UpToZero(u[1..]) == []
  {
  }

  lemma SameStart(u: Units, v: Units)
    requires u != [] && v != [] && v[0] == u[0]
    requires |v| > 1 <==> |u| > 1 && u[1] != 0
    requires |v| > 1 ==> v[1] == u[1]
    ensures FirstCode(v) == FirstCode(u) && FirstUnits(v) == FirstUnits(u)
  {
  }

  /** The law of `TextDecoder`: it inverts UTF-8, except that it drops a leading byte order mark. */
  ghost predicate DecodesUtf8(decode: Bytes -> Units) {
    forall t: Text | t == [] || t[0] != 0xFEFF :: decode(Encode(t)) == Utf16(t)
  }

  /** The short cut for zeros makes no difference. */
  lemma TextOfDigits(decode: Bytes -> Units, digits: string)
    requires AllHexDigits(digits) && decode([]) == []
    ensures TextOf(decode, "0x" + digits) == decode(LeadingBytes(digits))
  {
    assert Strip0x("0x" + digits) == digits;
    if AllZeroDigits(digits) && |digits| >= 2 {
      assert digits[0] in digits && digits[1] in digits;
    }
  }

  lemma DecodesNothing(decode: Bytes -> Units)
    requires DecodesUtf8(decode)
    ensures decode([]) == []
  {
    assert decode(Encode([])) == Utf16([]);
  }

  lemma DecodesTo(decode: Bytes -> Units, v: Units)
    requires DecodesUtf8(decode) && (v != [] ==> v[0] != 0xFEFF)
    ensures decode(EncodeUnits(v)) == Utf16(Repaired(v))
  {
    EncodeUnitsIsRepaired(v);
    assert Repaired(v) == [] || Repaired(v)[0] != 0xFEFF;
  }

  /** Reading what `stringToBytes32` wrote gives the trimmed text up to its first U+0000, with lone
      surrogates replaced. Trimming has removed any byte order mark that the decoder would drop. */
  lemma WrittenReadsBack(decode: Bytes -> Units, str: Units)
    requires DecodesUtf8(decode) && |EncodeUnits(Trim(str))| <= 32
    ensures TextOf(decode, "0x" + HexEncode(Pad(EncodeUnits(Trim(str))))) == Utf16(Repaired(UpToZero(Trim(str))))
  {
    var u := Trim(str);
    var digits := HexEncode(Pad(EncodeUnits(u)));
    PaddedDigits(u, Pad(EncodeUnits(u)), digits, 32 - |EncodeUnits(u)|);
    DigitsReadBack(decode, UpToZero(u), digits);
  }

  lemma PaddedDigits(u: Units, padded: Bytes, digits: string, zeros: nat)
    requires padded == EncodeUnits(u) + Fill(0, zeros) && digits == HexEncode(padded)
    ensures AllHexDigits(digits) && LeadingBytes(digits) == EncodeUnits(UpToZero(u))
  {
    LeadingBytesOfHex(padded);
    UpToZeroOfUnits(u, zeros);
  }

  lemma DigitsReadBack(decode: Bytes -> Units, v: Units, digits: string)
    requires DecodesUtf8(decode) && (v != [] ==> v[0] != 0xFEFF)
    requires AllHexDigits(digits) && LeadingBytes(digits) == EncodeUnits(v)
    ensures TextOf(decode, "0x" + digits) == Utf16(Repaired(v))
  {
    DecodesNothing(decode);
    TextOfDigits(decode, digits);
    DecodesTo(decode, v);
  }

  /** So the text comes back exactly when its trimmed form has no U+0000 and no lone surrogate. */
  lemma StringRoundTripExactly(decode: Bytes -> Units, str: Units)
    requires DecodesUtf8(decode) && |EncodeUnits(Trim(str))| <= 32
    ensures TextOf(decode, "0x" + HexEncode(Pad(EncodeUnits(Trim(str))))) == Trim(str)
        <==> 0 !in Trim(str) && exists t :: Trim(str) == Utf16(t)
  {
    var u := Trim(str);
    WrittenReadsBack(decode, str);
    EncodeUnitsIsRepaired(UpToZero(u));
    if 0 !in u {
      assert UpToZero(u) == u;
      if t :| u == Utf16(t) {
        RepairedOfText(t);
      }
    }
  }

  // ---------------------------------------------------------------- in plain terms

  /** The circuit's field: zeros without a value, else the octets of the longest prefix of whole
      characters within 32 octets, and zeros. */
  lemma CircuitFieldExactly(s: Text)
    ensures CircuitField(None) == Pad([])
    ensures exists k: nat :: IsLongestFit(s, k, 32) && CircuitField(Some(s)) == Pad(Encode(s[..k]))
  {
    FitCountIsLongest(s, 32);
    KeptFits(s);
    assert Pad([]) == ZERO;
  }

  /** The page's field: the octets of the longest prefix of code units that encodes within 32 octets. */
  lemma {:induction false} BrowserFieldExactly(u: Units)
    ensures exists k: nat :: IsLastFit(u, k) && BrowserField(u) == Pad(EncodeUnits(u[..k]))
  {
    TrimmedIsLastFit(u);
  }

  /** Cutting at `k` fits, and cutting anywhere behind it does not. */
  ghost predicate IsLastFit(u: Units, k: nat) {
    && k <= |u| && |EncodeUnits(u[..k])| <= 32
    && forall j | k < j <= |u| :: |EncodeUnits(u[..j])| > 32
  }

  lemma {:induction false} TrimmedIsLastFit(u: Units)
    ensures IsLastFit(u, TrimmedCount(u))
    decreases |u|
  {
    assert u[..|u|] == u;
    if |EncodeUnits(u)| > 32 {
      var v := u[..|u| - 1];
      TrimmedIsLastFit(v);
      forall j | TrimmedCount(u) < j <= |u| ensures |EncodeUnits(u[..j])| > 32 {
        if j < |u| {
          assert v[..j] == u[..j];
        }
      }
    }
  }

  /** The bytes that `bytes32ToString` reads from hexadecimal digits: those before the first zero; a
      last odd digit is ignored. */
  lemma {:induction false} LeadingBytesExactly(digits: string, b: Bytes)
    requires HexDecode(digits) == Some(b)
    ensures LeadingBytes(digits) == UpToZeroByte(b)
    ensures forall c: char :: LeadingBytes(digits + [c]) == UpToZeroByte(b)
    decreases |digits|
  {
    if |digits| >= 2 {
      LeadingBytesExactly(digits[2..], b[1..]);
      forall c: char ensures LeadingBytes(digits + [c]) == UpToZeroByte(b) {
        assert (digits + [c])[2..] == digits[2..] + [c];
      }
    }
  }

  lemma {:induction false} UpToZeroByteExactly(b: Bytes)
    ensures UpToZeroByte(b) <= b
    ensures forall i | 0 <= i < |UpToZeroByte(b)| :: b[i] != 0
    ensures UpToZeroByte(b) == b || b[|UpToZeroByte(b)|] == 0
  {
    if b != [] && b[0] != 0 {
      UpToZeroByteExactly(b[1..]);
      assert b == [b[0]] + b[1..];
    }
  }

  /** Text that is not hexadecimal, and zeros, read as the empty text; all other digits as the bytes
      before the first zero, decoded. */
  lemma TextOfExactly(decode: Bytes -> Units, digits: string)
    requires Strip0x(digits) == digits
    ensures (exists c :: c in digits && HexValue(c).None?) ==> TextOf(decode, digits) == []
    ensures (forall c :: c in digits ==> c == '0') ==> TextOf(decode, digits) == []
    ensures (forall c :: c in digits ==> HexValue(c).Some?) ==> (exists c :: c in digits && c != '0') ==>
              TextOf(decode, digits) == decode(LeadingBytes(digits))
  {
  }
}
