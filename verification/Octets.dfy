/** Byte strings, big-endian numbers, and the order Rust gives to byte arrays. */
module Octets {

  type byte = b: int | 0 <= b < 256

  type Bytes = seq<byte>

  type Hash = h: Bytes | |h| == 32 witness seq(32, _ => 0)

  type Address = a: Bytes | |a| == 20 witness seq(20, _ => 0)

  /** SHA-256 is external: every model takes it as a parameter. */
  type Sha = Bytes -> Hash

  /** `k` copies of one byte. */
  function Fill(b: byte, k: nat): (r: Bytes)
    ensures |r| == k
    ensures forall i | 0 <= i < k :: r[i] == b
  {
    seq(k, _ => b)
  }

  /** Two `update` calls on one hasher. */
  function Append(a: Bytes, b: Bytes): Bytes {
    a + b
  }

  lemma SliceOfFront(a: Bytes, b: Bytes, i: nat, j: nat)
    requires i <= j <= |a|
    ensures (a + b)[i..j] == a[i..j]
  {
  }

  lemma Associates(a: Bytes, b: Bytes, c: Bytes)
    ensures (a + b) + c == a + (b + c)
  {
  }

  const ZERO: Hash := Fill(0, 32)

  const ONES: Hash := Fill(0xff, 32)

  /** Two to the 64: the modulus of `usize` and `u64`. */
  const U64: nat := 0x1_0000_0000_0000_0000

  /** Two to the 32: the modulus of `u32`. */
  const U32: nat := 0x1_0000_0000

  type u64 = n: nat | n < 0x1_0000_0000_0000_0000

  type u32 = n: nat | n < 0x1_0000_0000

  type i64 = n: int | -0x8000_0000_0000_0000 <= n < 0x8000_0000_0000_0000

  // ---------------------------------------------------------------- collisions

  /** No two different members of `inputs` have the same digest. The sets used with it
      are finite and hold exactly what a computation hashed, so it can hold of a real hash. */
  ghost predicate CollisionFree(sha: Sha, inputs: set<Bytes>) {
    forall x, y | x in inputs && y in inputs && sha(x) == sha(y) :: x == y
  }

  // ---------------------------------------------------------------- big-endian numbers

  function Pow256(k: nat): (p: nat)
    ensures p >= 1
  {
    if k == 0 then 1 else 256 * Pow256(k - 1)
  }

  /** The unsigned big-endian value of a byte string. */
  function FromBE(b: Bytes): nat {
    if |b| == 0 then 0 else FromBE(b[..|b| - 1]) * 256 + b[|b| - 1]
  }

  /** The low `k` bytes of `n`, most significant first (`to_be_bytes`). */
  function ToBE(n: nat, k: nat): (b: Bytes)
    ensures |b| == k
  {
    if k == 0 then [] else ToBE(n / 256, k - 1) + [n % 256]
  }

  lemma {:induction false} FromBEBound(b: Bytes)
    ensures FromBE(b) < Pow256(|b|)
  {
    if b != [] {
      FromBEBound(b[..|b| - 1]);
    }
  }

  lemma {:induction false} FromToBE(n: nat, k: nat)
    requires n < Pow256(k)
    ensures FromBE(ToBE(n, k)) == n
  {
    if k > 0 {
      FromToBE(n / 256, k - 1);
      assert ToBE(n, k)[..k - 1] == ToBE(n / 256, k - 1);
    }
  }

  lemma {:induction false} ToFromBE(b: Bytes)
    ensures ToBE(FromBE(b), |b|) == b
  {
    if b != [] {
      ToFromBE(b[..|b| - 1]);
      assert FromBE(b) / 256 == FromBE(b[..|b| - 1]);
      assert b == b[..|b| - 1] + [b[|b| - 1]];
    }
  }

  lemma {:induction false} FromBESnoc(b: Bytes, x: byte)
    ensures FromBE(b + [x]) == FromBE(b) * 256 + x
  {
    assert (b + [x])[..|b|] == b;
  }

  /** Leading zero bytes do not change the value. */
  lemma {:induction false} FromBELeadingZero(b: Bytes)
    ensures FromBE([0] + b) == FromBE(b)
  {
    if b == [] {
      assert [0] + b == [0];
      assert FromBE([0]) == FromBE([]) * 256 + 0;
    } else {
      FromBELeadingZero(b[..|b| - 1]);
      assert ([0] + b)[..|b|] == [0] + b[..|b| - 1];
    }
  }

  /** A non-zero first byte makes the value positive. */
  lemma {:induction false} FromBEPositive(b: Bytes)
    requires b != [] && b[0] != 0
    ensures FromBE(b) >= 1
  {
    if |b| > 1 {
      FromBEPositive(b[..|b| - 1]);
    }
  }

  lemma {:induction false} Pow256Mono(j: nat, k: nat)
    requires j <= k
    ensures Pow256(j) <= Pow256(k)
  {
    if j < k {
      Pow256Mono(j, k - 1);
    }
  }

  lemma Pow256Eight()
    ensures Pow256(4) == U32
    ensures Pow256(8) == U64
  {
    assert Pow256(4) == 256 * Pow256(3) == 65536 * Pow256(2);
    assert Pow256(8) == 256 * Pow256(7) == 65536 * Pow256(6);
    assert Pow256(6) == 256 * Pow256(5) == 65536 * Pow256(4);
  }

  // ---------------------------------------------------------------- lexicographic order

  /** Rust's `<` on byte arrays. */
  predicate Less(a: Bytes, b: Bytes) {
    if |b| == 0 then false
    else if |a| == 0 then true
    else a[0] < b[0] || (a[0] == b[0] && Less(a[1..], b[1..]))
  }

  lemma {:induction false} LessIrreflexive(a: Bytes)
    ensures !Less(a, a)
  {
    if a != [] {
      LessIrreflexive(a[1..]);
    }
  }

  lemma {:induction false} LessTransitive(a: Bytes, b: Bytes, c: Bytes)
    requires Less(a, b) && Less(b, c)
    ensures Less(a, c)
  {
    if a != [] && a[0] == b[0] == c[0] {
      LessTransitive(a[1..], b[1..], c[1..]);
    }
  }

  lemma {:induction false} LessTotal(a: Bytes, b: Bytes)
    ensures a == b || Less(a, b) || Less(b, a)
  {
    if a != [] && b != [] && a[0] == b[0] {
      LessTotal(a[1..], b[1..]);
      assert a == [a[0]] + a[1..] && b == [b[0]] + b[1..];
    }
  }

  lemma LessAsymmetric(a: Bytes, b: Bytes)
    requires Less(a, b)
    ensures !Less(b, a)
  {
    if Less(b, a) {
      LessTransitive(a, b, a);
      LessIrreflexive(a);
    }
  }

  lemma {:induction false} ZerosLeast(k: nat, a: Bytes)
    requires |a| == k
    ensures !Less(a, Fill(0, k))
  {
    if k > 0 {
      ZerosLeast(k - 1, a[1..]);
      assert Fill(0, k)[1..] == Fill(0, k - 1);
    }
  }

  lemma {:induction false} OnesGreatest(k: nat, a: Bytes)
    requires |a| == k
    ensures !Less(Fill(0xff, k), a)
  {
    if k > 0 {
      OnesGreatest(k - 1, a[1..]);
      assert Fill(0xff, k)[1..] == Fill(0xff, k - 1);
    }
  }

  /** One string is less than another exactly when it is a proper beginning of it, or has the smaller
      byte at the first place where they differ. */
  lemma {:induction false} LessExactly(a: Bytes, b: Bytes)
    ensures Less(a, b) <==>
            || (|a| < |b| && a == b[..|a|])
            || (exists i: nat :: DifferAt(a, b, i) && a[i] < b[i])
  {
    if a != [] && b != [] {
      LessExactly(a[1..], b[1..]);
      if a[0] == b[0] {
        assert a == [a[0]] + a[1..] && b == [b[0]] + b[1..];
        assert |a| < |b| ==> (a == b[..|a|] <==> a[1..] == b[1..][..|a| - 1]) by {
          if |a| < |b| {
            assert b[..|a|] == [b[0]] + b[1..][..|a| - 1];
          }
        }
        DifferLater(a, b);
      } else {
        assert DifferAt(a, b, 0);
      }
    }
  }

  /** The first place where two strings differ. */
  ghost predicate DifferAt(a: Bytes, b: Bytes, i: nat) {
    i < |a| && i < |b| && a[..i] == b[..i] && a[i] != b[i]
  }

  lemma DifferLater(a: Bytes, b: Bytes)
    requires a != [] && b != [] && a[0] == b[0]
    ensures forall i: nat :: DifferAt(a[1..], b[1..], i) <==> DifferAt(a, b, i + 1)
  {
    forall i: nat ensures DifferAt(a[1..], b[1..], i) <==> DifferAt(a, b, i + 1) {
      if i + 1 <= |a| && i + 1 <= |b| {
        assert a[..i + 1] == [a[0]] + a[1..][..i] && b[..i + 1] == [b[0]] + b[1..][..i];
        assert a[1..][..i] == a[..i + 1][1..] && b[1..][..i] == b[..i + 1][1..];
      }
    }
    assert !DifferAt(a, b, 0);
  }
}
