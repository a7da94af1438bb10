/** Where the constants of SHA-256 come from: sections 4.2.2 and 5.3.3 of FIPS 180-4. */
module RootConstants {
  import opened Int64
  import opened Bits
  import opened Sha256

  // ---------------------------------------------------------------- the primes

  ghost predicate Prime(n: nat)
  {
    n >= 2 && forall d :: 2 <= d < n ==> n % d != 0
  }

  /** Below 361 a number without a smaller factor among seven is prime. */
  predicate Sieved(n: nat)
  {
    && n >= 2
    && (n == 2 || n % 2 != 0) && (n == 3 || n % 3 != 0) && (n == 5 || n % 5 != 0) && (n == 7 || n % 7 != 0)
    && (n == 11 || n % 11 != 0) && (n == 13 || n % 13 != 0) && (n == 17 || n % 17 != 0)
  }

  lemma SievedIsPrime(n: nat)
    requires n < 361
    ensures Sieved(n) <==> Prime(n)
  {
    if Sieved(n) {
      forall d | 2 <= d < n ensures n % d != 0 {
        if n % d == 0 { FactorFound(n, d, n / d); }
      }
    }
  }

  lemma FactorFound(n: nat, d: nat, e: nat)
    requires n < 361 && n == d * e && 2 <= d < n
    ensures !Sieved(n)
  {
    if d < 19 {
      SmallFactor(n, d, e);
    } else {
      if e >= 19 { MulMonotone(19, d, e); }
      SmallFactor(n, e, d);
    }
  }

  lemma SmallFactor(n: nat, d: nat, e: nat)
    requires n == d * e && 2 <= d < n && d < 19
    ensures !Sieved(n)
  {
    if d % 2 == 0 {
      Multiple(d, e, 2);
    } else if d % 3 == 0 {
      Multiple(d, e, 3);
    } else {
      assert d in {5, 7, 11, 13, 17};
      Multiple(d, e, d);
    }
  }

  lemma Multiple(d: nat, e: nat, q: nat)
    requires q > 0 && d % q == 0
    ensures (d * e) % q == 0
  {
    Assoc(q, d / q, e);
    FloorIs(d * e, q, d / q * e, 0);
  }

  /** The first 64 primes. */
  function PrimeAt(t: nat): nat
    requires t < 64
  {
    (
      if t < 8 then [2, 3, 5, 7, 11, 13, 17, 19]
      else if t < 16 then [23, 29, 31, 37, 41, 43, 47, 53]
      else if t < 24 then [59, 61, 67, 71, 73, 79, 83, 89]
      else if t < 32 then [97, 101, 103, 107, 109, 113, 127, 131]
      else if t < 40 then [137, 139, 149, 151, 157, 163, 167, 173]
      else if t < 48 then [179, 181, 191, 193, 197, 199, 211, 223]
      else if t < 56 then [227, 229, 233, 239, 241, 251, 257, 263]
      else [269, 271, 277, 281, 283, 293, 307, 311]
    )[t % 8]
  }

  // ---------------------------------------------------------------- the roots

  /** k is the first 32 bits behind the point of the cube root of p. */
  ghost predicate CubeRoot(p: nat, k: u32)
  {
    exists c: nat :: Cubed(p, c, k)
  }

  predicate Cubed(p: nat, c: nat, k: u32)
  {
    var r := 0x1_0000_0000 * c + k;
    && c * c * c <= p < (c + 1) * (c + 1) * (c + 1)
    && r * r * r <= p * 0x1_0000_0000_0000_0000_0000_0000 < (r + 1) * (r + 1) * (r + 1)
  }

  ghost predicate SquareRoot(p: nat, k: u32)
  {
    exists c: nat :: Squared(p, c, k)
  }

  predicate Squared(p: nat, c: nat, k: u32)
  {
    var r := 0x1_0000_0000 * c + k;
    && c * c <= p < (c + 1) * (c + 1)
    && r * r <= p * 0x1_0000_0000_0000_0000 < (r + 1) * (r + 1)
  }

  ghost predicate CubeEntry(t: nat, p: nat, k: u32)
  {
    t < 64 && PrimeAt(t) == p && K[t] == k && (t < 63 ==> p < PrimeAt(t + 1))
  }

  ghost predicate CubeRootAt(t: nat)
  {
    exists p, k :: CubeEntry(t, p, k) && CubeRoot(p, k) && Prime(p)
  }

  lemma CubeFits(t: nat, p: nat, c: nat, k: u32)
    requires CubeEntry(t, p, k) && Cubed(p, c, k) && p < 361 && Sieved(p)
    ensures CubeRootAt(t)
  {
    hide CubeEntry;
    SievedIsPrime(p);
  }

  lemma CubeEntries0()
    ensures CubeEntry(0, 2, 0x428a2f98) && CubeEntry(1, 3, 0x71374491) && CubeEntry(2, 5, 0xb5c0fbcf)
    ensures CubeEntry(3, 7, 0xe9b5dba5) && CubeEntry(4, 11, 0x3956c25b) && CubeEntry(5, 13, 0x59f111f1)
    ensures CubeEntry(6, 17, 0x923f82a4) && CubeEntry(7, 19, 0xab1c5ed5)
  {
  }

  lemma CubeRoots0()
    ensures forall t: nat :: 0 <= t < 8 ==> CubeRootAt(t)
  {
    hide CubeEntry, CubeRootAt;
    CubeEntries0();
    CubeFits(0, 2, 1, 0x428a2f98); CubeFits(1, 3, 1, 0x71374491); CubeFits(2, 5, 1, 0xb5c0fbcf);
    CubeFits(3, 7, 1, 0xe9b5dba5); CubeFits(4, 11, 2, 0x3956c25b); CubeFits(5, 13, 2, 0x59f111f1);
    CubeFits(6, 17, 2, 0x923f82a4); CubeFits(7, 19, 2, 0xab1c5ed5);
  }

  lemma CubeEntries8()
    ensures CubeEntry(8, 23, 0xd807aa98) && CubeEntry(9, 29, 0x12835b01) && CubeEntry(10, 31, 0x243185be)
    ensures CubeEntry(11, 37, 0x550c7dc3) && CubeEntry(12, 41, 0x72be5d74) && CubeEntry(13, 43, 0x80deb1fe)
    ensures CubeEntry(14, 47, 0x9bdc06a7) && CubeEntry(15, 53, 0xc19bf174)
  {
  }

  lemma CubeRoots8()
    ensures forall t: nat :: 8 <= t < 16 ==> CubeRootAt(t)
  {
    hide CubeEntry, CubeRootAt;
    CubeEntries8();
    CubeFits(8, 23, 2, 0xd807aa98); CubeFits(9, 29, 3, 0x12835b01); CubeFits(10, 31, 3, 0x243185be);
    CubeFits(11, 37, 3, 0x550c7dc3); CubeFits(12, 41, 3, 0x72be5d74); CubeFits(13, 43, 3, 0x80deb1fe);
    CubeFits(14, 47, 3, 0x9bdc06a7); CubeFits(15, 53, 3, 0xc19bf174);
  }

  lemma CubeEntries16()
    ensures CubeEntry(16, 59, 0xe49b69c1) && CubeEntry(17, 61, 0xefbe4786) && CubeEntry(18, 67, 0x0fc19dc6)
    ensures CubeEntry(19, 71, 0x240ca1cc) && CubeEntry(20, 73, 0x2de92c6f) && CubeEntry(21, 79, 0x4a7484aa)
    ensures CubeEntry(22, 83, 0x5cb0a9dc) && CubeEntry(23, 89, 0x76f988da)
  {
  }

  lemma CubeRoots16()
    ensures forall t: nat :: 16 <= t < 24 ==> CubeRootAt(t)
  {
    hide CubeEntry, CubeRootAt;
    CubeEntries16();
    CubeFits(16, 59, 3, 0xe49b69c1); CubeFits(17, 61, 3, 0xefbe4786); CubeFits(18, 67, 4, 0x0fc19dc6);
    CubeFits(19, 71, 4, 0x240ca1cc); CubeFits(20, 73, 4, 0x2de92c6f); CubeFits(21, 79, 4, 0x4a7484aa);
    CubeFits(22, 83, 4, 0x5cb0a9dc); CubeFits(23, 89, 4, 0x76f988da);
  }

  lemma CubeEntries24()
    ensures CubeEntry(24, 97, 0x983e5152) && CubeEntry(25, 101, 0xa831c66d) && CubeEntry(26, 103, 0xb00327c8)
    ensures CubeEntry(27, 107, 0xbf597fc7) && CubeEntry(28, 109, 0xc6e00bf3) && CubeEntry(29, 113, 0xd5a79147)
    ensures CubeEntry(30, 127, 0x06ca6351) && CubeEntry(31, 131, 0x14292967)
  {
  }

  lemma CubeRoots24()
    ensures forall t: nat :: 24 <= t < 32 ==> CubeRootAt(t)
  {
    hide CubeEntry, CubeRootAt;
    CubeEntries24();
    CubeFits(24, 97, 4, 0x983e5152); CubeFits(25, 101, 4, 0xa831c66d); CubeFits(26, 103, 4, 0xb00327c8);
    CubeFits(27, 107, 4, 0xbf597fc7); CubeFits(28, 109, 4, 0xc6e00bf3); CubeFits(29, 113, 4, 0xd5a79147);
    CubeFits(30, 127, 5, 0x06ca6351); CubeFits(31, 131, 5, 0x14292967);
  }

  lemma CubeEntries32()
    ensures CubeEntry(32, 137, 0x27b70a85) && CubeEntry(33, 139, 0x2e1b2138) && CubeEntry(34, 149, 0x4d2c6dfc)
    ensures CubeEntry(35, 151, 0x53380d13) && CubeEntry(36, 157, 0x650a7354) && CubeEntry(37, 163, 0x766a0abb)
    ensures CubeEntry(38, 167, 0x81c2c92e) && CubeEntry(39, 173, 0x92722c85)
  {
  }

  lemma CubeRoots32()
    ensures forall t: nat :: 32 <= t < 40 ==> CubeRootAt(t)
  {
    hide CubeEntry, CubeRootAt;
    CubeEntries32();
    CubeFits(32, 137, 5, 0x27b70a85); CubeFits(33, 139, 5, 0x2e1b2138); CubeFits(34, 149, 5, 0x4d2c6dfc);
    CubeFits(35, 151, 5, 0x53380d13); CubeFits(36, 157, 5, 0x650a7354); CubeFits(37, 163, 5, 0x766a0abb);
    CubeFits(38, 167, 5, 0x81c2c92e); CubeFits(39, 173, 5, 0x92722c85);
  }

  lemma CubeEntries40()
    ensures CubeEntry(40, 179, 0xa2bfe8a1) && CubeEntry(41, 181, 0xa81a664b) && CubeEntry(42, 191, 0xc24b8b70)
    ensures CubeEntry(43, 193, 0xc76c51a3) && CubeEntry(44, 197, 0xd192e819) && CubeEntry(45, 199, 0xd6990624)
    ensures CubeEntry(46, 211, 0xf40e3585) && CubeEntry(47, 223, 0x106aa070)
  {
  }

  lemma CubeRoots40()
    ensures forall t: nat :: 40 <= t < 48 ==> CubeRootAt(t)
  {
    hide CubeEntry, CubeRootAt;
    CubeEntries40();
    CubeFits(40, 179, 5, 0xa2bfe8a1); CubeFits(41, 181, 5, 0xa81a664b); CubeFits(42, 191, 5, 0xc24b8b70);
    CubeFits(43, 193, 5, 0xc76c51a3); CubeFits(44, 197, 5, 0xd192e819); CubeFits(45, 199, 5, 0xd6990624);
    CubeFits(46, 211, 5, 0xf40e3585); CubeFits(47, 223, 6, 0x106aa070);
  }

  lemma CubeEntries48()
    ensures CubeEntry(48, 227, 0x19a4c116) && CubeEntry(49, 229, 0x1e376c08) && CubeEntry(50, 233, 0x2748774c)
    ensures CubeEntry(51, 239, 0x34b0bcb5) && CubeEntry(52, 241, 0x391c0cb3) && CubeEntry(53, 251, 0x4ed8aa4a)
    ensures CubeEntry(54, 257, 0x5b9cca4f) && CubeEntry(55, 263, 0x682e6ff3)
  {
  }

  lemma CubeRoots48()
    ensures forall t: nat :: 48 <= t < 56 ==> CubeRootAt(t)
  {
    hide CubeEntry, CubeRootAt;
    CubeEntries48();
    CubeFits(48, 227, 6, 0x19a4c116); CubeFits(49, 229, 6, 0x1e376c08); CubeFits(50, 233, 6, 0x2748774c);
    CubeFits(51, 239, 6, 0x34b0bcb5); CubeFits(52, 241, 6, 0x391c0cb3); CubeFits(53, 251, 6, 0x4ed8aa4a);
    CubeFits(54, 257, 6, 0x5b9cca4f); CubeFits(55, 263, 6, 0x682e6ff3);
  }

  lemma CubeEntries56()
    ensures CubeEntry(56, 269, 0x748f82ee) && CubeEntry(57, 271, 0x78a5636f) && CubeEntry(58, 277, 0x84c87814)
    ensures CubeEntry(59, 281, 0x8cc70208) && CubeEntry(60, 283, 0x90befffa) && CubeEntry(61, 293, 0xa4506ceb)
    ensures CubeEntry(62, 307, 0xbef9a3f7) && CubeEntry(63, 311, 0xc67178f2)
  {
  }

  lemma CubeRoots56()
    ensures forall t: nat :: 56 <= t < 64 ==> CubeRootAt(t)
  {
    hide CubeEntry, CubeRootAt;
    CubeEntries56();
    CubeFits(56, 269, 6, 0x748f82ee); CubeFits(57, 271, 6, 0x78a5636f); CubeFits(58, 277, 6, 0x84c87814);
    CubeFits(59, 281, 6, 0x8cc70208); CubeFits(60, 283, 6, 0x90befffa); CubeFits(61, 293, 6, 0xa4506ceb);
    CubeFits(62, 307, 6, 0xbef9a3f7); CubeFits(63, 311, 6, 0xc67178f2);
  }

  ghost predicate SquareEntry(t: nat, p: nat, k: u32)
  {
    t < 8 && PrimeAt(t) == p && H0[t] == k
  }

  ghost predicate SquareRootAt(t: nat)
  {
    exists p, k :: SquareEntry(t, p, k) && SquareRoot(p, k)
  }

  lemma SquareFits(t: nat, p: nat, c: nat, k: u32)
    requires SquareEntry(t, p, k) && Squared(p, c, k)
    ensures SquareRootAt(t)
  {
    hide SquareEntry;
  }

  lemma SquareEntries()
    ensures SquareEntry(0, 2, 0x6a09e667) && SquareEntry(1, 3, 0xbb67ae85) && SquareEntry(2, 5, 0x3c6ef372)
    ensures SquareEntry(3, 7, 0xa54ff53a) && SquareEntry(4, 11, 0x510e527f) && SquareEntry(5, 13, 0x9b05688c)
    ensures SquareEntry(6, 17, 0x1f83d9ab) && SquareEntry(7, 19, 0x5be0cd19)
  {
  }

  lemma SquareRoots()
    ensures forall t: nat :: t < 8 ==> SquareRootAt(t)
  {
    hide SquareEntry, SquareRootAt;
    SquareEntries();
    SquareFits(0, 2, 1, 0x6a09e667); SquareFits(1, 3, 1, 0xbb67ae85); SquareFits(2, 5, 2, 0x3c6ef372);
    SquareFits(3, 7, 2, 0xa54ff53a); SquareFits(4, 11, 3, 0x510e527f); SquareFits(5, 13, 3, 0x9b05688c);
    SquareFits(6, 17, 4, 0x1f83d9ab); SquareFits(7, 19, 4, 0x5be0cd19);
  }

  /** The round constants are fractions of the cube roots of the primes, in their order, and the
      initial hash value those of the square roots of the first eight. */
  lemma RootFractions()
    ensures forall t: nat :: t < 64 ==> CubeRoot(PrimeAt(t), K[t])
    ensures forall t: nat :: t < 8 ==> SquareRoot(PrimeAt(t), H0[t])
  {
    hide CubeRoot, SquareRoot, Prime, PrimeAt;
    AllCubeRoots();
    SquareRoots();
    forall t: nat | t < 64 ensures CubeRoot(PrimeAt(t), K[t]) 
      ensures Prime(PrimeAt(t)) && (t < 63 ==> PrimeAt(t) < PrimeAt(t + 1))
    {
      assert CubeRootAt(t);
    }
    forall t: nat | t < 8 ensures SquareRoot(PrimeAt(t), H0[t]) { assert SquareRootAt(t); }
  }

  lemma AllCubeRoots()
    ensures forall t: nat :: t < 64 ==> CubeRootAt(t)
  {
    hide CubeRootAt;
    CubeRoots0();
    CubeRoots8();
    CubeRoots16();
    CubeRoots24();
    CubeRoots32();
    CubeRoots40();
    CubeRoots48();
    CubeRoots56();
  }
}
