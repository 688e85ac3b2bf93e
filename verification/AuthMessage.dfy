/** The message an owner signs to authorize a registry write. */
module AuthMessage {
  import opened Outcomes

  /** JavaScript's safe integers print as plain decimal. */
  type SafeInt = n: int | -0x1F_FFFF_FFFF_FFFF <= n <= 0x1F_FFFF_FFFF_FFFF

  datatype Request = Request(chainId: SafeInt, registryAddress: string, operation: string,
                             target: Option<string>, timestamp: SafeInt)

  function Digit(d: nat): (c: char)
    requires d < 10
    ensures '0' <= c <= '9'
  {
    '0' + d as char
  }

  function Digits(n: nat): (s: string)
    ensures if n < 10 then |s| == 1 else |s| >= 2
    ensures forall i | 0 <= i < |s| :: '0' <= s[i] <= '9'
  {
    if n < 10 then [Digit(n)] else Digits(n / 10) + [Digit(n % 10)]
  }

  function Decimal(n: int): string {
    if n < 0 then "-" + Digits(-n) else Digits(n)
  }

  /** The target that the message shows: an absent and an empty one are both left out. */
  function Shown(target: Option<string>): Option<string> {
    if target == Some("") then None else target
  }

  function JoinLines(lines: seq<string>): string {
    if |lines| == 0 then ""
    else if |lines| == 1 then lines[0]
    else lines[0] + "\n" + JoinLines(lines[1..])
  }

  function Head(p: Request, lower: string -> string): seq<string> {
    ["zk-x509-registry-admin",
     "Chain ID: " + Decimal(p.chainId),
     "Registry: " + lower(p.registryAddress),
     "Operation: " + p.operation]
  }

  /** The message as text: four lines, an optional fifth, and the timestamp. */
  function Message(p: Request, lower: string -> string): string {
    var h := Head(p, lower);
    h[0] + "\n" + (h[1] + "\n" + (h[2] + "\n" + (h[3] + "\n" + Ending(p))))
  }

  function Ending(p: Request): string {
    var last := "Timestamp: " + Decimal(p.timestamp);
    match Shown(p.target)
    case None => last
    case Some(t) => ("Target: " + t) + "\n" + last
  }

  method BuildAuthMessage(p: Request, lower: string -> string) returns (message: string)
    ensures message == Message(p, lower)
    ensures message
         == "zk-x509-registry-admin" + "\n"
            + ("Chain ID: " + Decimal(p.chainId) + "\n"
            + ("Registry: " + lower(p.registryAddress) + "\n"
            + ("Operation: " + p.operation + "\n"
            + (if p.target.Some? && p.target.value != ""
               then "Target: " + p.target.value + "\n" + ("Timestamp: " + Decimal(p.timestamp))
               else "Timestamp: " + Decimal(p.timestamp)))))
  {
    var lines := [
      "zk-x509-registry-admin",
      "Chain ID: " + Decimal(p.chainId),
      "Registry: " + lower(p.registryAddress),
      "Operation: " + p.operation];
    if p.target.Some? && p.target.value != "" {
      lines := lines + ["Target: " + p.target.value];
    }
    lines := lines + ["Timestamp: " + Decimal(p.timestamp)];
    JoinedLines(p, lower, lines);
    return JoinLines(lines);
  }

  lemma JoinedLines(p: Request, lower: string -> string, lines: seq<string>)
    requires lines == Head(p, lower)
                      + (match Shown(p.target) case None => [] case Some(t) => ["Target: " + t])
                      + ["Timestamp: " + Decimal(p.timestamp)]
    ensures JoinLines(lines) == Message(p, lower)
  {
    var h := Head(p, lower);
    var rest := lines[1..][1..][1..][1..];
    assert rest == (match Shown(p.target) case None => [] case Some(t) => ["Target: " + t])
                   + ["Timestamp: " + Decimal(p.timestamp)];
    assert JoinLines(rest) == Ending(p);
    JoinStep(lines[1..][1..][1..]);
    JoinStep(lines[1..][1..]);
    JoinStep(lines[1..]);
    JoinStep(lines);
  }

  lemma JoinStep(lines: seq<string>)
    requires |lines| > 1
    ensures JoinLines(lines) == lines[0] + "\n" + JoinLines(lines[1..])
  {
  }

  // ---------------------------------------------------------------- reading it back

  predicate OneLine(s: string) {
    '\n' !in s
  }

  /** The first character of a line and its newline. */
  function FirstOf(a: string): char {
    if a == "" then '\n' else a[0]
  }

  function LastOf(a: string): char {
    if a == "" then '\n' else a[|a| - 1]
  }

  lemma OneLineEnds(a: string)
    requires OneLine(a)
    ensures FirstOf(a) == '\n' <==> a == ""
    ensures LastOf(a) == '\n' <==> a == ""
  {
    assert a != "" ==> a[0] in a && a[|a| - 1] in a;
  }

  lemma FirstCharOfLine(a: string, x: string)
    ensures (a + "\n" + x)[0] == FirstOf(a)
    ensures (a + "\n" + x)[1..] == if a == "" then x else a[1..] + "\n" + x
  {
  }

  lemma LastCharOfLine(x: string, a: string)
    ensures (x + "\n" + a)[|x| + |a|] == LastOf(a)
    ensures (x + "\n" + a)[..|x| + |a|] == if a == "" then x else x + "\n" + a[..|a| - 1]
  {
  }

  /** Equal texts with newline-free first lines have the same first line and the same rest. */
  lemma {:induction false} SplitFirstLine(a: string, x: string, b: string, y: string)
    requires OneLine(a) && OneLine(b)
    requires a + "\n" + x == b + "\n" + y
    ensures a == b && x == y
  {
    OneLineEnds(a);
    OneLineEnds(b);
    FirstCharOfLine(a, x);
    FirstCharOfLine(b, y);
    if a != "" {
      SplitFirstLine(a[1..], x, b[1..], y);
      assert a == [a[0]] + a[1..] && b == [b[0]] + b[1..];
    }
  }

  /** The same from the end: newline-free last lines. */
  lemma {:induction false} SplitLastLine(x: string, a: string, y: string, b: string)
    requires OneLine(a) && OneLine(b)
    requires x + "\n" + a == y + "\n" + b
    ensures a == b && x == y
  {
    OneLineEnds(a);
    OneLineEnds(b);
    LastCharOfLine(x, a);
    LastCharOfLine(y, b);
    assert |x + "\n" + a| == |y + "\n" + b|;
    if a != "" {
      SplitLastLine(x, a[..|a| - 1], y, b[..|b| - 1]);
      assert a == a[..|a| - 1] + [a[|a| - 1]] && b == b[..|b| - 1] + [b[|b| - 1]];
    }
  }

  lemma {:induction false} DigitsInjective(m: nat, n: nat)
    requires Digits(m) == Digits(n)
    ensures m == n
  {
    var s := Digits(m);
    assert s[|s| - 1] == Digit(m % 10) == Digit(n % 10);
    if m >= 10 && n >= 10 {
      assert Digits(m / 10) == s[..|s| - 1] == Digits(n / 10);
      DigitsInjective(m / 10, n / 10);
    }
  }

  lemma DecimalInjective(m: int, n: int)
    requires Decimal(m) == Decimal(n)
    ensures m == n
  {
    assert Decimal(m)[0] == '-' <==> m < 0;
    assert Decimal(n)[0] == '-' <==> n < 0;
    if m < 0 {
      assert Decimal(m)[1..] == Digits(-m) && Decimal(n)[1..] == Digits(-n);
      DigitsInjective(-m, -n);
    } else {
      DigitsInjective(m, n);
    }
  }

  lemma DecimalOneLine(n: int)
    ensures OneLine(Decimal(n))
  {
  }

  lemma SamePrefix(prefix: string, a: string, b: string)
    requires prefix + a == prefix + b
    ensures a == b
  {
    assert a == (prefix + a)[|prefix|..] && b == (prefix + b)[|prefix|..];
  }

  /** The ending shows whether there is a target, and which, even one that contains newlines. */
  lemma EndingDetermines(p: Request, q: Request)
    requires Ending(p) == Ending(q)
    ensures Shown(p.target) == Shown(q.target) && p.timestamp == q.timestamp
  {
    var lp, lq := "Timestamp: " + Decimal(p.timestamp), "Timestamp: " + Decimal(q.timestamp);
    DecimalOneLine(p.timestamp);
    DecimalOneLine(q.timestamp);
    assert OneLine(lp) && OneLine(lq);
    assert Ending(p)[1] == if Shown(p.target).None? then 'i' else 'a';
    assert Ending(q)[1] == if Shown(q.target).None? then 'i' else 'a';
    if Shown(p.target).Some? {
      var tp, tq := Shown(p.target).value, Shown(q.target).value;
      SplitLastLine("Target: " + tp, lp, "Target: " + tq, lq);
      SamePrefix("Target: ", tp, tq);
    }
    SamePrefix("Timestamp: ", Decimal(p.timestamp), Decimal(q.timestamp));
    DecimalInjective(p.timestamp, q.timestamp);
  }

  /** Both messages are the same exactly when all fields are, as far as the message is meant to
      show them: the registry up to letter case, an empty target like none. */
  lemma MessageDetermines(p: Request, q: Request, lower: string -> string)
    requires OneLine(lower(p.registryAddress)) && OneLine(lower(q.registryAddress))
    requires OneLine(p.operation) && OneLine(q.operation)
    ensures Message(p, lower) == Message(q, lower) <==>
              && p.chainId == q.chainId
              && lower(p.registryAddress) == lower(q.registryAddress)
              && p.operation == q.operation
              && Shown(p.target) == Shown(q.target)
              && p.timestamp == q.timestamp
  {
    if Message(p, lower) == Message(q, lower) {
      var h, k := Head(p, lower), Head(q, lower);
      DecimalOneLine(p.chainId);
      DecimalOneLine(q.chainId);
      assert OneLine(h[1]) && OneLine(k[1]) && OneLine(h[2]) && OneLine(k[2]) && OneLine(h[3]) && OneLine(k[3]);
      SplitFirstLine(h[0], h[1] + "\n" + (h[2] + "\n" + (h[3] + "\n" + Ending(p))),
                     k[0], k[1] + "\n" + (k[2] + "\n" + (k[3] + "\n" + Ending(q))));
      SplitFirstLine(h[1], h[2] + "\n" + (h[3] + "\n" + Ending(p)), k[1], k[2] + "\n" + (k[3] + "\n" + Ending(q)));
      SplitFirstLine(h[2], h[3] + "\n" + Ending(p), k[2], k[3] + "\n" + Ending(q));
      SplitFirstLine(h[3], Ending(p), k[3], Ending(q));
      SamePrefix("Chain ID: ", Decimal(p.chainId), Decimal(q.chainId));
      DecimalInjective(p.chainId, q.chainId);
      SamePrefix("Registry: ", lower(p.registryAddress), lower(q.registryAddress));
      SamePrefix("Operation: ", p.operation, q.operation);
      EndingDetermines(p, q);
    }
  }

  // ---------------------------------------------------------------- decimal numbers

  lemma DigitExactly(d: nat)
    requires d < 10
    ensures Digit(d) == "0123456789"[d]
  {
  }

  /** The value of decimal digits. */
  function ValueOf(s: string): int {
    if |s| == 0 then 0 else ValueOf(s[..|s| - 1]) * 10 + (s[|s| - 1] as int - '0' as int)
  }

  /** Digits have the number as their value, and no leading zero but zero itself. */
  lemma {:induction false} DigitsExactly(n: nat)
    ensures ValueOf(Digits(n)) == n
    ensures Digits(n)[0] == '0' ==> n == 0
  {
    var s := Digits(n);
    if n >= 10 {
      DigitsExactly(n / 10);
      assert s[..|s| - 1] == Digits(n / 10);
    } else {
      assert s[..0] == "";
    }
  }

  lemma DecimalExactly(n: int)
    ensures n >= 0 ==> ValueOf(Decimal(n)) == n
    ensures n < 0 ==> Decimal(n)[0] == '-' && ValueOf(Decimal(n)[1..]) == -n
  {
    if n >= 0 {
      DigitsExactly(n);
    } else {
      DigitsExactly(-n);
      assert Decimal(n)[1..] == Digits(-n);
    }
  }
}
