/** The messages that the certificate's key signs: who claims what, and for which registry. */
module Challenges {
  import opened Octets

  /** "zk-X509-Nullifier-v2". */
  const NULLIFIER_DOMAIN: Bytes :=
    [0x7A, 0x6B, 0x2D, 0x58, 0x35, 0x30, 0x39, 0x2D, 0x4E, 0x75,
     0x6C, 0x6C, 0x69, 0x66, 0x69, 0x65, 0x72, 0x2D, 0x76, 0x32]

  function OwnershipPreimage(serial: Bytes, registrant: Address, walletIndex: u32, timestamp: u64, chainId: u64): Bytes {
    serial + registrant + ToBE(walletIndex, 4) + ToBE(timestamp, 8) + ToBE(chainId, 8)
  }

  function NullifierPreimage(registry: Address, chainId: u64): Bytes {
    NULLIFIER_DOMAIN + registry + ToBE(chainId, 8)
  }

  // ---------------------------------------------------------------- layout

  /** Equal texts whose ends are equally long. */
  lemma SplitEnd(a: Bytes, x: Bytes, b: Bytes, y: Bytes)
    requires |x| == |y| && a + x == b + y
    ensures a == b && x == y
  {
    assert |a| == |b|;
    assert a == (a + x)[..|a|] && b == (b + y)[..|a|];
    assert x == (a + x)[|a|..] && y == (b + y)[|a|..];
  }

  lemma FixedWidthInjective(m: nat, n: nat, k: nat)
    requires m < Pow256(k) && n < Pow256(k) && ToBE(m, k) == ToBE(n, k)
    ensures m == n
  {
    FromToBE(m, k);
    FromToBE(n, k);
  }

  /** The layout is unambiguous although the serial has no fixed length. */
  lemma OwnershipDetermines(s: Bytes, r: Address, w: u32, t: u64, c: u64, s': Bytes, r': Address, w': u32, t': u64, c': u64)
    ensures OwnershipPreimage(s, r, w, t, c) == OwnershipPreimage(s', r', w', t', c')
        <==> s == s' && r == r' && w == w' && t == t' && c == c'
  {
    if OwnershipPreimage(s, r, w, t, c) == OwnershipPreimage(s', r', w', t', c') {
      Pow256Eight();
      SplitEnd(s + r + ToBE(w, 4) + ToBE(t, 8), ToBE(c, 8), s' + r' + ToBE(w', 4) + ToBE(t', 8), ToBE(c', 8));
      SplitEnd(s + r + ToBE(w, 4), ToBE(t, 8), s' + r' + ToBE(w', 4), ToBE(t', 8));
      SplitEnd(s + r, ToBE(w, 4), s' + r', ToBE(w', 4));
      SplitEnd(s, r, s', r');
      FixedWidthInjective(c, c', 8);
      FixedWidthInjective(t, t', 8);
      FixedWidthInjective(w, w', 4);
    }
  }

  lemma NullifierDetermines(r: Address, c: u64, r': Address, c': u64)
    ensures NullifierPreimage(r, c) == NullifierPreimage(r', c') <==> r == r' && c == c'
  {
    if NullifierPreimage(r, c) == NullifierPreimage(r', c') {
      Pow256Eight();
      SplitEnd(NULLIFIER_DOMAIN + r, ToBE(c, 8), NULLIFIER_DOMAIN + r', ToBE(c', 8));
      SplitEnd(NULLIFIER_DOMAIN, r, NULLIFIER_DOMAIN, r');
      FixedWidthInjective(c, c', 8);
    }
  }

  /** Without a collision between the two messages, a signature over one ownership challenge is
      over another only if both make the same claim. */
  lemma ChallengeBinds(sha: Sha, s: Bytes, r: Address, w: u32, t: u64, c: u64,
        s': Bytes, r': Address, w': u32, t': u64, c': u64)
    requires CollisionFree(sha, {OwnershipPreimage(s, r, w, t, c), OwnershipPreimage(s', r', w', t', c')})
    ensures sha(OwnershipPreimage(s, r, w, t, c)) == sha(OwnershipPreimage(s', r', w', t', c'))
        <==> s == s' && r == r' && w == w' && t == t' && c == c'
  {
    OwnershipDetermines(s, r, w, t, c, s', r', w', t', c');
  }

  /** A nullifier is the digest of a signature and a slot, and determines both. */
  lemma SlotBinds(sha: Sha, sig: Bytes, w: u32, sig': Bytes, w': u32)
    requires CollisionFree(sha, {sig + ToBE(w, 4), sig' + ToBE(w', 4)})
    ensures sha(sig + ToBE(w, 4)) == sha(sig' + ToBE(w', 4)) <==> sig == sig' && w == w'
  {
    if sha(sig + ToBE(w, 4)) == sha(sig' + ToBE(w', 4)) {
      SplitEnd(sig, ToBE(w, 4), sig', ToBE(w', 4));
      Pow256Eight();
      FixedWidthInjective(w, w', 4);
    }
  }

  /** The two kinds of message meet only for a serial of eight bytes that begins the domain
      string, with a registrant that continues it. */
  lemma KindsMeetExactly(s: Bytes, r: Address, w: u32, t: u64, c: u64)
    ensures (exists registry: Address, chain: u64 ::
               OwnershipPreimage(s, r, w, t, c) == NullifierPreimage(registry, chain))
        <==> s == NULLIFIER_DOMAIN[..8] && r[..12] == NULLIFIER_DOMAIN[8..]
  {
    var m := OwnershipPreimage(s, r, w, t, c);
    if registry: Address, chain: u64 :| m == NullifierPreimage(registry, chain) {
      assert |s| == 8;
      assert m[..8] == s && m[8..20] == r[..12];
      assert NullifierPreimage(registry, chain)[..20] == NULLIFIER_DOMAIN;
      assert m[..20] == NULLIFIER_DOMAIN;
      assert m[..20][..8] == m[..8] && m[..20][8..] == m[8..20];
    }
    if s == NULLIFIER_DOMAIN[..8] && r[..12] == NULLIFIER_DOMAIN[8..] {
      var registry: Address := r[12..] + ToBE(w, 4) + ToBE(t, 8);
      assert s + r == NULLIFIER_DOMAIN + r[12..];
      assert m == NullifierPreimage(registry, c);
    }
  }

  // ---------------------------------------------------------------- in plain terms

  /** The domain is this text. */
  lemma DomainExactly(i: nat)
    requires i < 20
    ensures |NULLIFIER_DOMAIN| == 20 && NULLIFIER_DOMAIN[i] == "zk-X509-Nullifier-v2"[i] as int
  {
  }

  /** Where each part of the claim stands. */
  lemma OwnershipLayout(s: Bytes, r: Address, w: u32, t: u64, c: u64, n: nat)
    requires n == |s|
    ensures var m := OwnershipPreimage(s, r, w, t, c);
            && |m| == n + 40 && m[..n] == s && m[n..n + 20] == r
            && FromBE(m[n + 20..n + 24]) == w && FromBE(m[n + 24..n + 32]) == t && FromBE(m[n + 32..]) == c
  {
    var m := OwnershipPreimage(s, r, w, t, c);
    assert m[n + 20..n + 24] == ToBE(w, 4) && m[n + 24..n + 32] == ToBE(t, 8) && m[n + 32..] == ToBE(c, 8);
    Pow256Eight();
    FromToBE(w, 4);
    FromToBE(t, 8);
    FromToBE(c, 8);
  }

  lemma NullifierLayout(r: Address, c: u64)
    ensures var m := NullifierPreimage(r, c);
            && |m| == 48 && m[..20] == NULLIFIER_DOMAIN && m[20..40] == r && FromBE(m[40..]) == c
  {
    var m := NullifierPreimage(r, c);
    assert m[40..] == ToBE(c, 8);
    Pow256Eight();
    FromToBE(c, 8);
  }
}
