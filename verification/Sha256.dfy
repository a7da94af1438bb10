/** SHA-256: the compression function round by round (section 6.2.2 of FIPS 180-4), the padding
    (section 5.1.1), and a streaming context that must agree with hashing the whole message. */
module Sha256 {
  import opened Bytes
  import opened Seqs
  import opened Int64

  const TWO32: nat := 0x1_0000_0000

  type u32 = x: int | 0 <= x < 0x1_0000_0000

  type State = s: seq<u32> | |s| == 8 witness seq(8, _ => 0)

  type Block = b: bytes | |b| == 64 witness seq(64, _ => 0)

  const K: seq<u32> :=
    [0x428a2f98, 0x71374491, 0xb5c0fbcf, 0xe9b5dba5, 0x3956c25b, 0x59f111f1, 0x923f82a4, 0xab1c5ed5]
    + [0xd807aa98, 0x12835b01, 0x243185be, 0x550c7dc3, 0x72be5d74, 0x80deb1fe, 0x9bdc06a7, 0xc19bf174]
    + [0xe49b69c1, 0xefbe4786, 0x0fc19dc6, 0x240ca1cc, 0x2de92c6f, 0x4a7484aa, 0x5cb0a9dc, 0x76f988da]
    + [0x983e5152, 0xa831c66d, 0xb00327c8, 0xbf597fc7, 0xc6e00bf3, 0xd5a79147, 0x06ca6351, 0x14292967]
    + [0x27b70a85, 0x2e1b2138, 0x4d2c6dfc, 0x53380d13, 0x650a7354, 0x766a0abb, 0x81c2c92e, 0x92722c85]
    + [0xa2bfe8a1, 0xa81a664b, 0xc24b8b70, 0xc76c51a3, 0xd192e819, 0xd6990624, 0xf40e3585, 0x106aa070]
    + [0x19a4c116, 0x1e376c08, 0x2748774c, 0x34b0bcb5, 0x391c0cb3, 0x4ed8aa4a, 0x5b9cca4f, 0x682e6ff3]
    + [0x748f82ee, 0x78a5636f, 0x84c87814, 0x8cc70208, 0x90befffa, 0xa4506ceb, 0xbef9a3f7, 0xc67178f2]

  const H0: State := [0x6a09e667, 0xbb67ae85, 0x3c6ef372, 0xa54ff53a, 0x510e527f, 0x9b05688c, 0x1f83d9ab, 0x5be0cd19]

  // ---------------------------------------------------------------- words

  function Add(a: nat, b: nat): u32 { (a + b) % TWO32 }

  function Word(x: nat): u32 { x % TWO32 }

  function Shr(x: u32, n: nat): u32
  {
    Word(Quotient(x, Pow2(n)))
  }

  /** x >> n | x << (32 - n) */
  function Ror(x: u32, n: nat): u32
    requires n <= 32
  {
    Word(Bitwise(Or, Shr(x, n), Word(x as nat * Pow2(32 - n)), 32))
  }

  function Xor2(a: u32, b: u32): u32 { Word(Bitwise(Xor, a, b, 32)) }
  function And2(a: u32, b: u32): u32 { Word(Bitwise(And, a, b, 32)) }
  function Not(a: u32): u32 { 0xFFFF_FFFF - a }

  // ---------------------------------------------------------------- the compression function

  function BlockWord(b: Block, i: nat): u32
    requires i < 16
  {
    Word(b[4 * i] as nat * 0x100_0000 + b[4 * i + 1] as nat * 0x1_0000
         + b[4 * i + 2] as nat * 0x100 + b[4 * i + 3] as nat)
  }

  /** Word `t` of the message schedule, from the words before it. */
  function NextWord(w: seq<u32>): u32
    requires |w| >= 16
  {
    var t := |w|;
    var s0 := Xor2(Xor2(Ror(w[t - 15], 7), Ror(w[t - 15], 18)), Shr(w[t - 15], 3));
    var s1 := Xor2(Xor2(Ror(w[t - 2], 17), Ror(w[t - 2], 19)), Shr(w[t - 2], 10));
    Add(Add(Add(w[t - 16], s0), w[t - 7]), s1)
  }

  function Schedule(b: Block, n: nat): (w: seq<u32>)
    ensures |w| == n
  {
    if n == 0 then []
    else Schedule(b, n - 1) + [if n <= 16 then BlockWord(b, n - 1) else NextWord(Schedule(b, n - 1))]
  }

  datatype Regs = Regs(a: u32, b: u32, c: u32, d: u32, e: u32, f: u32, g: u32, h: u32)

  function T1(r: Regs, k: u32, w: u32): u32
  {
    var s1 := Xor2(Xor2(Ror(r.e, 6), Ror(r.e, 11)), Ror(r.e, 25));
    var ch := Xor2(And2(r.e, r.f), And2(Not(r.e), r.g));
    Add(Add(Add(Add(r.h, s1), ch), k), w)
  }

  function T2(r: Regs): u32
  {
    var s0 := Xor2(Xor2(Ror(r.a, 2), Ror(r.a, 13)), Ror(r.a, 22));
    var maj := Xor2(Xor2(And2(r.a, r.b), And2(r.a, r.c)), And2(r.b, r.c));
    Add(s0, maj)
  }

  /** The first `n` rounds. */
  function Rounds(r: Regs, w: seq<u32>, n: nat): Regs
    requires n <= 64 == |w|
  {
    if n == 0 then r
    else
      var q := Rounds(r, w, n - 1);
      var t1, t2 := T1(q, K[n - 1], w[n - 1]), T2(q);
      Regs(Add(t1, t2), q.a, q.b, q.c, Add(q.d, t1), q.e, q.f, q.g)
  }

  function Load(s: State): Regs { Regs(s[0], s[1], s[2], s[3], s[4], s[5], s[6], s[7]) }

  function Compress(s: State, b: Block): State
  {
    Sum(s, Rounds(Load(s), Schedule(b, 64), 64))
  }

  function Sum(s: State, r: Regs): State
  {
    [Add(s[0], r.a), Add(s[1], r.b), Add(s[2], r.c), Add(s[3], r.d),
     Add(s[4], r.e), Add(s[5], r.f), Add(s[6], r.g), Add(s[7], r.h)]
  }

  // ---------------------------------------------------------------- the message

  function Zeros(n: nat): (r: bytes)
    ensures |r| == n
  {
    seq(n, _ => 0)
  }

  /** (uint8_t)(x >> shift) */
  function ByteAt(x: nat, shift: nat): byte { Quotient(x, Pow2(shift)) % 256 }

  /** The eight bytes of a 64-bit number, highest first. */
  function BE64(v: u64): (r: bytes)
    ensures |r| == 8
  {
    seq(8, i requires 0 <= i < 8 => ByteAt(v, 56 - 8 * i))
  }

  /** How many zero bytes follow the 0x80 byte of a message of `n` bytes. */
  function Gap(n: nat): nat { (119 - n % 64) % 64 }

  /** The length field holds the number of bits modulo 2^64. */
  function Pad(m: bytes): bytes
  {
    m + ([0x80] + (Zeros(Gap(|m|)) + BE64((8 * |m|) % TWO64)))
  }

  function Fold(s: State, b: bytes): State
    decreases |b|
  {
    if |b| < 64 then s else Fold(Compress(s, b[..64]), b[64..])
  }

  function Output(s: State): (r: Digest)
  {
    seq(32, i requires 0 <= i < 32 => ByteAt(s[i / 4], 24 - 8 * (i % 4)))
  }

  /** The whole message at once. */
  function Sha256(m: bytes): Digest { Output(Fold(H0, Pad(m))) }

  /** The gap is the least one that fills the last block up to its length field. */
  lemma GapIsLeast(n: nat, k: nat)
    ensures (n + 1 + Gap(n) + 8) % 64 == 0
    ensures (n + 1 + k + 8) % 64 == 0 ==> Gap(n) <= k
  {
  }

  lemma {:induction false} FoldSnoc(s: State, b: bytes, last: Block)
    requires |b| % 64 == 0
    ensures Fold(s, b + last) == Compress(Fold(s, b), last)
    decreases |b|
  {
    hide Compress;
    if b == [] {
      assert [] + last == last && last[..64] == last && last[64..] == [];
    } else {
      assert (b + last)[..64] == b[..64] && (b + last)[64..] == b[64..] + last;
      FoldSnoc(Compress(s, b[..64]), b[64..], last);
    }
  }

  // ---------------------------------------------------------------- the context

  /** Where the whole blocks of a message end. */
  function Whole(n: nat): nat { n / 64 * 64 }

  /** The state has absorbed the whole blocks of `m`, and `rest` is what is behind them. */
  ghost predicate Absorbed(m: bytes, state: State, rest: bytes)
  {
    Whole(|m|) <= |m| && state == Fold(H0, m[..Whole(|m|)]) && rest == m[Whole(|m|)..]
  }

  lemma NothingAbsorbed(rest: bytes)
    requires rest == []
    ensures Absorbed([], H0, rest)
  {
  }

  /** More bytes that still fit into the buffer. */
  lemma AbsorbMore(m: bytes, chunk: bytes, state: State, rest: bytes)
    requires Absorbed(m, state, rest) && |rest| + |chunk| <= 64
    ensures |rest| + |chunk| < 64 ==> Absorbed(m + chunk, state, rest + chunk)
    ensures |rest| + |chunk| == 64 ==> Absorbed(m + chunk, Compress(state, rest + chunk), [])
  {
    hide Fold, Compress;
    var n, w := |m|, Whole(|m|);
    assert (m + chunk)[..w] == m[..w];
    if |rest| + |chunk| < 64 {
      assert Whole(|m + chunk|) == w;
      assert (m + chunk)[w..] == rest + chunk;
    } else {
      assert |m + chunk| == w + 64 && Whole(|m + chunk|) == w + 64;
      assert (m + chunk)[..w + 64] == m[..w] + (rest + chunk);
      FoldSnoc(H0, m[..w], rest + chunk);
    }
  }

  lemma BitCount(n: nat, more: nat)
    ensures ((8 * n) % TWO64 + more * 8) % TWO64 == (8 * (n + more)) % TWO64
  {
  }

  class Context {
    var state: State
    var bitlen: u64
    const buf: array<byte>
    var bufLen: nat
    /** Everything that was put in so far. */
    ghost var seen: bytes

    ghost predicate Valid()
      reads this, buf
    {
      && buf.Length == 64 && bufLen < 64
      && Absorbed(seen, state, buf[..bufLen])
      && bitlen == (8 * |seen|) % TWO64
    }

    constructor ()
      ensures Valid() && seen == [] && fresh(buf)
    {
      state := H0;
      bitlen := 0;
      bufLen := 0;
      buf := new byte[64](_ => 0);
      seen := [];
      new;
      NothingAbsorbed(buf[..0]);
      assert Absorbed(seen, state, buf[..bufLen]);
      assert bitlen == (8 * |seen|) % TWO64;
    }

    /** One block, in the registers and with the schedule in an array. */
    method Transform()
      requires buf.Length == 64
      modifies this`state
      ensures state == Compress(old(state), buf[..])
    {
      hide NextWord, BlockWord, T1, T2, Add, Sum;
      ghost var b: Block := buf[..];
      var w := new u32[64](_ => 0);
      for i := 0 to 16
        invariant w[..i] == Schedule(b, i)
        modifies w
      {
        w[i] := BlockWord(buf[..], i);
        assert w[..i + 1] == w[..i] + [w[i]];
      }
      for i := 16 to 64
        invariant w[..i] == Schedule(b, i)
        modifies w
      {
        w[i] := NextWord(w[..i]);
        assert w[..i + 1] == w[..i] + [w[i]];
      }
      assert w[..] == w[..64] == Schedule(b, 64) && state == old(state) && buf[..] == b;
      var r := Load(state);
      for i := 0 to 64
        invariant w[..] == Schedule(b, 64) && r == Rounds(Load(state), Schedule(b, 64), i)
      {
        var t1 := T1(r, K[i], w[i]);
        var t2 := T2(r);
        r := Regs(Add(t1, t2), r.a, r.b, r.c, Add(r.d, t1), r.e, r.f, r.g);
      }
      state := Sum(state, r);
    }

    /** memcpy behind the bytes that are already in the buffer */
    method Copy(ghost chunk: bytes, data: bytes, at: nat, n: nat)
      requires buf.Length == 64 && bufLen + n <= 64 && at + n <= |data| && chunk == data[at..at + n]
      modifies buf
      ensures buf[..bufLen + n] == old(buf[..bufLen]) + chunk
    {
      ghost var before := buf[..bufLen];
      forall i | 0 <= i < n { buf[bufLen + i] := data[at + i]; }
      assert buf[..bufLen] == before && buf[bufLen..bufLen + n] == chunk;
      assert buf[..bufLen + n] == buf[..bufLen] + buf[bufLen..bufLen + n];
    }

    /** Fills the buffer with the next bytes, and compresses it when it is full. */
    method Absorb(data: bytes, at: nat, take: nat)
      requires buf.Length == 64 && bufLen + take <= 64 && at + take <= |data|
      requires Absorbed(seen, state, buf[..bufLen])
      modifies this`state, this`bufLen, this`seen, buf
      ensures bufLen < 64 && Absorbed(seen, state, buf[..bufLen])
      ensures seen == old(seen) + data[at..at + take]
    {
      hide Compress, Absorbed;
      ghost var rest, chunk := buf[..bufLen], data[at..at + take];
      Copy(chunk, data, at, take);
      AbsorbMore(seen, chunk, state, rest);
      seen := seen + chunk;
      bufLen := bufLen + take;
      if bufLen == 64 {
        assert buf[..] == buf[..64] == rest + chunk;
        Transform();
        bufLen := 0;
        assert buf[..0] == [];
      }
    }

    /** Takes more of the message; how it is cut into calls leaves no trace. */
    method Update(data: bytes)
      requires Valid()
      modifies this, buf
      ensures Valid() && seen == old(seen) + data
    {
      hide Absorbed;
      BitCount(|seen|, |data|);
      bitlen := (bitlen + |data| * 8) % TWO64;
      ghost var before, bits := seen, bitlen;
      var at := 0;
      assert before + data[..0] == before;
      while at < |data|
        invariant at <= |data| && seen == before + data[..at] && bufLen < 64
        invariant Absorbed(seen, state, buf[..bufLen])
        invariant bitlen == bits
      {
        var take := if 64 - bufLen < |data| - at then 64 - bufLen else |data| - at;
        Absorb(data, at, take);
        JoinSlices(data, 0, at, at + take);
        Regroup(before, data[..at], data[at..at + take]);
        at := at + take;
      }
      assert data[..at] == data;
    }

    /** Pads, and reads the digest out of the state. */
    method Final() returns (out: Digest)
      requires Valid()
      modifies this, buf
      ensures out == Sha256(old(seen))
    {
      hide Compress, Fold, BE64, Output, Sha256, Absorbed;
      ghost var m, rest, s0 := seen, buf[..bufLen], state;
      var bits := bitlen;
      buf[bufLen] := 0x80;
      bufLen := bufLen + 1;
      ghost var filled := rest + [0x80];
      assert buf[..bufLen] == filled;
      if bufLen > 56 {
        FillZeros(64);
        assert buf[..] == buf[..64];
        Transform();
        bufLen := 0;
        assert buf[..0] == [];
      }
      FillZeros(56);
      WriteLength(bits);
      Transform();
      assert [] + Zeros(56) == Zeros(56);
      PadBlocks(m, s0, rest, state);
      out := Digested();
    }

    method WriteLength(bits: u64)
      requires buf.Length == 64
      modifies buf
      ensures buf[..] == old(buf[..56]) + BE64(bits)
    {
      hide ByteAt;
      ghost var front := buf[..56];
      for i := 0 to 8
        invariant buf[..56] == front && forall k :: 0 <= k < i ==> buf[56 + k] == BE64(bits)[k]
      {
        buf[56 + i] := ByteAt(bits, 56 - 8 * i);
      }
      assert buf[56..64] == BE64(bits);
      assert buf[..] == buf[..56] + buf[56..64];
    }

    /** Zero bytes up to position `to` of the buffer. */
    method FillZeros(to: nat)
      requires buf.Length == 64 && bufLen <= to <= 64
      modifies this`bufLen, buf
      ensures bufLen == to && buf[..to] == old(buf[..bufLen]) + Zeros(to - old(bufLen))
    {
      ghost var start, was := bufLen, buf[..bufLen];
      while bufLen < to
        invariant start <= bufLen <= to && buf[..bufLen] == was + Zeros(bufLen - start)
      {
        ghost var before := buf[..bufLen];
        buf[bufLen] := 0;
        bufLen := bufLen + 1;
        assert buf[..bufLen] == before + [0];
        assert Zeros(bufLen - start) == Zeros(bufLen - start - 1) + [0];
      }
    }

    method Digested() returns (out: Digest)
      ensures out == Output(state)
    {
      hide ByteAt;
      var d := new byte[32](_ => 0);
      ghost var o: bytes := Output(state);
      for i := 0 to 8
        invariant forall k :: 0 <= k < 4 * i ==> d[k] == o[k]
      {
        OutputAt(state, i);
        d[4 * i] := ByteAt(state[i], 24);
        d[4 * i + 1] := ByteAt(state[i], 16);
        d[4 * i + 2] := ByteAt(state[i], 8);
        d[4 * i + 3] := ByteAt(state[i], 0);
      }
      assert d[..] == o;
      out := d[..];
    }
  }

  lemma OutputAt(s: State, i: nat)
    requires i < 8
    ensures var o: bytes := Output(s);
            && o[4 * i] == ByteAt(s[i], 24) && o[4 * i + 1] == ByteAt(s[i], 16)
            && o[4 * i + 2] == ByteAt(s[i], 8) && o[4 * i + 3] == ByteAt(s[i], 0)
  {
    hide ByteAt;
    assert (4 * i) / 4 == i && (4 * i + 1) / 4 == i && (4 * i + 2) / 4 == i && (4 * i + 3) / 4 == i;
  }

  function OnlyBlock(rest: bytes, len: bytes): (b: Block)
    requires |rest| < 56 && |len| == 8
  {
    rest + [0x80] + Zeros(55 - |rest|) + len
  }

  function FullBlock(rest: bytes): (b: Block)
    requires 56 <= |rest| < 64
  {
    rest + [0x80] + Zeros(63 - |rest|)
  }

  function LengthBlock(len: bytes): (b: Block)
    requires |len| == 8
  {
    Zeros(56) + len
  }

  /** The blocks that the final call makes of the bytes that are left over. */
  ghost predicate LastBlocks(s0: State, rest: bytes, len: bytes, final: State)
    requires |rest| < 64 && |len| == 8
  {
    if |rest| < 56 then final == Compress(s0, OnlyBlock(rest, len))
    else final == Compress(Compress(s0, FullBlock(rest)), LengthBlock(len))
  }

  /** They are the padded end of the message. */
  lemma PadBlocks(m: bytes, s0: State, rest: bytes, final: State)
    requires |rest| < 64 && Absorbed(m, s0, rest) && LastBlocks(s0, rest, BE64((8 * |m|) % TWO64), final)
    ensures Output(final) == Sha256(m)
  {
    hide Compress, Fold, BE64, Output, Pad, Absorbed, Sha256, LastBlocks;
    var len := BE64((8 * |m|) % TWO64);
    var head := m[..Whole(|m|)];
    WholeParts(m, head, rest, s0);
    DigestIs(m);
    if |rest| >= 56 {
      TwoFinal(m, head, rest, s0, len, final);
    } else {
      OneFinal(m, head, rest, s0, len, final);
    }
  }

  lemma TwoFinal(m: bytes, head: bytes, rest: bytes, s0: State, len: bytes, final: State)
    requires m == head + rest && |head| % 64 == 0 && 56 <= |rest| < 64 && len == BE64((8 * |m|) % TWO64)
    requires s0 == Fold(H0, head) && LastBlocks(s0, rest, len, final)
    ensures final == Fold(H0, Pad(m))
  {
    hide Compress, Fold, BE64, Pad, FullBlock, LengthBlock;
    TwoBlocks(m, head, rest, len);
    FoldSnoc(H0, head, FullBlock(rest));
    FoldSnoc(H0, head + FullBlock(rest), LengthBlock(len));
  }

  lemma OneFinal(m: bytes, head: bytes, rest: bytes, s0: State, len: bytes, final: State)
    requires m == head + rest && |head| % 64 == 0 && |rest| < 56 && len == BE64((8 * |m|) % TWO64)
    requires s0 == Fold(H0, head) && LastBlocks(s0, rest, len, final)
    ensures final == Fold(H0, Pad(m))
  {
    hide Compress, Fold, BE64, Pad, OnlyBlock;
    OneBlock(m, head, rest, len);
    FoldSnoc(H0, head, OnlyBlock(rest, len));
  }

  lemma WholeParts(m: bytes, head: bytes, rest: bytes, s: State)
    requires Absorbed(m, s, rest) && head == m[..Whole(|m|)]
    ensures m == head + rest && |head| % 64 == 0 && s == Fold(H0, head)
  {
    hide Fold;
    TakeDrop(m, Whole(|m|));
  }

  lemma DigestIs(m: bytes)
    ensures Sha256(m) == Output(Fold(H0, Pad(m)))
  {
  }

  lemma TwoBlocks(m: bytes, head: bytes, rest: bytes, len: bytes)
    requires m == head + rest && |head| % 64 == 0 && 56 <= |rest| < 64 && len == BE64((8 * |m|) % TWO64)
    ensures Pad(m) == head + FullBlock(rest) + LengthBlock(len)
  {
    hide BE64, Zeros, Gap;
    GapOf(|head|, |rest|);
    ZerosSum(63 - |rest|, 56);
    RegroupSix(head, rest, [0x80], Zeros(63 - |rest|), Zeros(56), len);
  }

  lemma OneBlock(m: bytes, head: bytes, rest: bytes, len: bytes)
    requires m == head + rest && |head| % 64 == 0 && |rest| < 56 && len == BE64((8 * |m|) % TWO64)
    ensures Pad(m) == head + OnlyBlock(rest, len)
  {
    hide BE64, Zeros, Gap;
    GapOf(|head|, |rest|);
    RegroupFive(head, rest, [0x80], Zeros(55 - |rest|), len);
  }

  /** The padding behind whole blocks depends on what is left over. */
  lemma GapOf(whole: nat, rest: nat)
    requires whole % 64 == 0 && rest < 64
    ensures Gap(whole + rest) == if rest < 56 then 55 - rest else 63 - rest + 56
  {
    assert (whole + rest) % 64 == rest;
  }

  lemma ZerosSum(a: nat, b: nat)
    ensures Zeros(a + b) == Zeros(a) + Zeros(b)
  {
  }

  lemma RegroupSix(a: bytes, b: bytes, c: bytes, d: bytes, e: bytes, f: bytes)
    ensures (a + b) + (c + ((d + e) + f)) == a + (b + c + d) + (e + f)
  {
    Regroup(d, e, f);
    RegroupFive(a, b, c, d, e + f);
    Regroup(b + c, d, e + f);
    Regroup(a, b + c + d, e + f);
  }

  lemma RegroupFive(a: bytes, b: bytes, c: bytes, d: bytes, e: bytes)
    ensures (a + b) + (c + (d + e)) == a + (b + c + d + e)
  {
    Regroup(b + c, d, e);
    Regroup(b, c, d + e);
    Regroup(a, b, c + (d + e));
  }

  /** The one-shot helper. */
  method HashAll(data: bytes) returns (out: Digest)
    ensures out == Sha256(data)
  {
    hide Sha256, Absorbed;
    var ctx := new Context();
    ctx.Update(data);
    assert [] + data == data;
    out := ctx.Final();
  }

  /** The digest of an image as its loader computes it: the domain first, then the body. */
  method HashTwo(domain: bytes, body: bytes) returns (out: Digest)
    ensures out == Sha256(domain + body)
  {
    hide Sha256, Absorbed;
    var ctx := new Context();
    ctx.Update(domain);
    ctx.Update(body);
    assert [] + domain + body == domain + body;
    out := ctx.Final();
  }

  // ---------------------------------------------------------------- padding loses nothing

  lemma BytePowers()
    ensures Pow2(0) == 1 && Pow2(8) == 0x100 && Pow2(16) == 0x1_0000 && Pow2(24) == 0x100_0000
    ensures Pow2(32) == 0x1_0000_0000 && Pow2(40) == 0x100_0000_0000 && Pow2(48) == 0x1_0000_0000_0000
    ensures Pow2(56) == 0x100_0000_0000_0000
  {
    Pow2Of64();
    assert Pow2(8) == 0x100;
    assert Pow2(16) == 0x1_0000;
    assert Pow2(24) == 0x100_0000;
    assert Pow2(32) == 0x1_0000_0000;
    assert Pow2(40) == 0x100_0000_0000;
    assert Pow2(48) == 0x1_0000_0000_0000;
  }

  lemma BE64RoundTrip(v: u64)
    ensures FromBE(BE64(v)) == v
  {
    hide Pow2, FromBE;
    var b := BE64(v);
    assert Quotient(v, 1) == v && Quotient(v, 0x100_0000_0000_0000) < 256;
    BytePowers();
    BEPrefix(b, v, 1, 0x100_0000_0000_0000, 0);
    BEPrefix(b, v, 2, 0x1_0000_0000_0000, 0x100_0000_0000_0000);
    BEPrefix(b, v, 3, 0x100_0000_0000, 0x1_0000_0000_0000);
    BEPrefix(b, v, 4, 0x1_0000_0000, 0x100_0000_0000);
    BEPrefix(b, v, 5, 0x100_0000, 0x1_0000_0000);
    BEPrefix(b, v, 6, 0x1_0000, 0x100_0000);
    BEPrefix(b, v, 7, 0x100, 0x1_0000);
    BEPrefix(b, v, 8, 1, 0x100);
    assert b[..8] == b;
  }

  lemma BEPrefix(b: bytes, v: u64, n: nat, p: nat, above: nat)
    requires 1 <= n <= 8 == |b| && p > 0 && b[n - 1] == Quotient(v, p) % 256
    requires if n == 1 then Quotient(v, p) < 256 else above == 256 * p && FromBE(b[..n - 1]) == Quotient(v, above)
    ensures FromBE(b[..n]) == Quotient(v, p)
  {
    assert b[..n][..n - 1] == b[..n - 1];
    if n == 1 {
      assert FromBE(b[..0]) == 0;
    } else {
      DivTwice(v, p);
    }
  }

  lemma DivTwice(v: nat, p: nat)
    requires p > 0
    ensures Quotient(v, p) == Quotient(v, 256 * p) * 256 + Quotient(v, p) % 256
  {
    var q, r := Divide(v, 256 * p);
    var d, e := Divide(r, p);
    hide Quotient;
    Below256(p, r, d, e);
    Gather(p, q, d);
    Quotients(v, p, q, d, e);
  }

  lemma Divide(x: nat, m: nat) returns (q: nat, r: nat)
    requires m > 0
    ensures q == Quotient(x, m) && r < m && x == m * q + r
  {
    q, r := x / m, x % m;
  }

  lemma Quotients(v: nat, p: nat, q: nat, d: nat, e: nat)
    requires p > 0 && e < p && d < 256 && v == p * (256 * q + d) + e
    ensures Quotient(v, p) == 256 * q + d && Quotient(v, p) % 256 == d
  {
    QuotientIs(v, p, 256 * q + d, e);
  }

  lemma Below256(p: nat, r: nat, d: nat, e: nat)
    requires r == p * d + e && r < 256 * p
    ensures d < 256
  {
    if d >= 256 { MulMonotone(256, d, p); }
  }

  lemma Gather(p: int, q: int, d: int)
    ensures (256 * p) * q + p * d == p * (256 * q + d)
  {
  }

  /** Messages of less than 2^61 bytes have different padded forms. */
  lemma PadInjective(a: bytes, b: bytes)
    requires |a| < 0x2000_0000_0000_0000 && |b| < 0x2000_0000_0000_0000 && Pad(a) == Pad(b)
    ensures a == b
  {
    hide BE64, Pad, FromBE;
    PadEnd(a);
    PadEnd(b);
    BE64RoundTrip(8 * |a|);
    BE64RoundTrip(8 * |b|);
    PadStart(a);
    PadStart(b);
  }

  lemma PadEnd(m: bytes)
    ensures |Pad(m)| >= 8 && Pad(m)[|Pad(m)| - 8..] == BE64((8 * |m|) % TWO64)
  {
  }

  lemma PadStart(m: bytes)
    ensures |Pad(m)| >= |m| && Pad(m)[..|m|] == m
  {
  }

  function Flatten(chunks: seq<bytes>): bytes
  {
    if chunks == [] then [] else Flatten(chunks[..|chunks| - 1]) + chunks[|chunks| - 1]
  }

  /** A message handed over in any number of pieces of any lengths. */
  method HashChunks(chunks: seq<bytes>) returns (out: Digest)
    ensures out == Sha256(Flatten(chunks))
  {
    hide Sha256, Absorbed;
    var ctx := new Context();
    for i := 0 to |chunks|
      invariant fresh(ctx) && fresh(ctx.buf) && ctx.Valid() && ctx.seen == Flatten(chunks[..i])
    {
      ctx.Update(chunks[i]);
      assert chunks[..i + 1][..i] == chunks[..i];
    }
    assert chunks[..|chunks|] == chunks;
    out := ctx.Final();
  }
}
