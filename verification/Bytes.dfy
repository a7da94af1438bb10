/** Byte strings, fixed-width little-endian integers, and hash functions left abstract. */
module Bytes {

  type byte = x: int | 0 <= x < 256
  type bytes = seq<byte>

  type Digest = d: bytes | |d| == 32 witness seq(32, _ => 0)

  /** SHA-256 is used as an arbitrary function into 32-byte digests. */
  type Hash = bytes -> Digest

  /** Two different members of `inputs` have the same digest.  The set is always the
      finite set of strings that a computation really hashed, so this is not a
      pigeonhole triviality. */
  ghost predicate CollisionIn(h: Hash, inputs: set<bytes>)
  {
    exists x, y :: x in inputs && y in inputs && x != y && h(x) == h(y)
  }

  /** Where nothing collides, equal digests mean equal inputs. */
  lemma Separated(h: Hash, inputs: set<bytes>, x: bytes, y: bytes)
    requires x in inputs && y in inputs && !CollisionIn(h, inputs)
    ensures h(x) == h(y) ==> x == y
  {
  }

  function Pow256(width: nat): (r: nat)
    ensures r >= 1
  {
    if width == 0 then 1 else 256 * Pow256(width - 1)
  }

  lemma SmallPowers()
    ensures Pow256(2) == 0x1_0000
    ensures Pow256(4) == 0x1_0000_0000
    ensures Pow256(8) == 0x1_0000_0000_0000_0000
  {
    assert Pow256(1) == 256;
    assert Pow256(2) == 256 * 256;
    assert Pow256(3) == 0x100_0000;
    assert Pow256(4) == 0x1_0000_0000;
    assert Pow256(5) == 0x100_0000_0000;
    assert Pow256(6) == 0x1_0000_0000_0000;
    assert Pow256(7) == 0x100_0000_0000_0000;
  }

  /** The `width` low-order bytes of `v`, least significant first. */
  function LE(v: nat, width: nat): (r: bytes)
    ensures |r| == width
    decreases width, v
  {
    if width == 0 then [] else [v % 256] + LE(v / 256, width - 1)
  }

  function FromLE(b: bytes): nat
  {
    if b == [] then 0 else b[0] + 256 * FromLE(b[1..])
  }

  lemma {:induction false} FromLESnoc(b: bytes, x: byte)
    ensures FromLE(b + [x]) == FromLE(b) + x * Pow256(|b|)
  {
    if b == [] {
      assert FromLE([x][1..]) == 0;
    } else {
      assert (b + [x])[1..] == b[1..] + [x];
      FromLESnoc(b[1..], x);
      TimesPower(x, Pow256(|b| - 1));
    }
  }

  lemma {:induction false} LERoundTrip(v: nat, width: nat)
    requires v < Pow256(width)
    ensures FromLE(LE(v, width)) == v
    decreases width
  {
    if width > 0 {
      LERoundTrip(v / 256, width - 1);
      assert LE(v, width)[1..] == LE(v / 256, width - 1);
    }
  }

  lemma {:induction false} FromLERoundTrip(b: bytes)
    ensures FromLE(b) < Pow256(|b|)
    ensures LE(FromLE(b), |b|) == b
  {
    if b != [] {
      FromLERoundTrip(b[1..]);
      var rest := FromLE(b[1..]);
      DigitSplit(b[0], rest);
      assert b == [b[0]] + b[1..];
    }
  }

  lemma DigitSplit(low: byte, high: nat)
    ensures (low + 256 * high) % 256 == low && (low + 256 * high) / 256 == high
  {
  }

  /** Equal encodings of in-range values are encodings of equal values. */
  lemma LEInjective(a: nat, b: nat, width: nat)
    requires a < Pow256(width) && b < Pow256(width)
    requires LE(a, width) == LE(b, width)
    ensures a == b
  {
    LERoundTrip(a, width);
    LERoundTrip(b, width);
  }

  /** Bytes read as one big-endian number. */
  function FromBE(b: bytes): nat
  {
    if b == [] then 0 else FromBE(b[..|b| - 1]) * 256 + b[|b| - 1]
  }

  lemma {:induction false} FromBEConcat(a: bytes, b: bytes)
    ensures FromBE(a + b) == FromBE(a) * Pow256(|b|) + FromBE(b)
  {
    if b == [] {
      assert a + b == a;
    } else {
      var m := |b| - 1;
      assert (a + b)[..|a + b| - 1] == a + b[..m];
      FromBEConcat(a, b[..m]);
      TimesPower(FromBE(a), Pow256(m));
    }
  }

  lemma {:induction false} FromBEBounded(b: bytes)
    ensures FromBE(b) < Pow256(|b|)
  {
    if b != [] {
      FromBEBounded(b[..|b| - 1]);
    }
  }

  lemma TimesPower(x: nat, p: nat)
    ensures 256 * (x * p) == x * (256 * p)
  {
  }

  /** The shortest big-endian form of a number; zero is empty. */
  function MinBE(n: nat): (r: bytes)
  {
    if n == 0 then [] else MinBE(n / 256) + [n % 256]
  }

  lemma {:induction false} MinBERoundTrip(n: nat)
    ensures FromBE(MinBE(n)) == n
    ensures n > 0 ==> MinBE(n) != [] && MinBE(n)[0] != 0
  {
    if n > 0 {
      MinBERoundTrip(n / 256);
      assert MinBE(n)[..|MinBE(n)| - 1] == MinBE(n / 256);
    }
  }

  lemma {:induction false} MinBEExact(b: bytes)
    requires b != [] ==> b[0] != 0
    ensures MinBE(FromBE(b)) == b
  {
    if b != [] {
      var m := |b| - 1;
      MinBEExact(b[..m]);
      var n := FromBE(b);
      assert n / 256 == FromBE(b[..m]) && n % 256 == b[m];
      assert b == b[..m] + [b[m]];
    }
  }

  /** The length of the shortest form. */
  lemma {:induction false} MinBELength(n: nat, w: nat)
    ensures |MinBE(n)| <= w <==> n < Pow256(w)
  {
    if n > 0 && w > 0 {
      MinBELength(n / 256, w - 1);
    }
  }
}
