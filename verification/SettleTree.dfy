/** The root over a batch of settled swaps: levels are reduced in place, an unpaired last node is
    combined with itself, and neither leaves nor nodes carry a domain prefix or a count. */
module SettleTree {
  import opened Bytes
  import opened Seqs
  import opened Int64

  datatype Swap = Swap(txId: u64, amountIn: seq<u64>, reserveIn: seq<u64>, reserveOut: seq<u64>,
                       amountOut: seq<u64>, status: i64)

  predicate FourWords(s: Swap)
  {
    |s.amountIn| == 4 && |s.reserveIn| == 4 && |s.reserveOut| == 4 && |s.amountOut| == 4
  }

  /** The 64 bytes of a leaf on a little-endian host. */
  function LeafInput(s: Swap): (r: bytes)
    requires FourWords(s)
    ensures |r| == 64
  {
    LE(s.txId, 8) + (LE(ToU64(s.status), 8)
    + (LE(s.amountOut[0], 8) + (LE(s.amountOut[1], 8) + (LE(s.amountOut[2], 8) + (LE(s.amountOut[3], 8)
    + (LE(s.amountIn[0], 8) + LE(s.amountIn[1], 8)))))))
  }

  /** A leaf fixes the id, the status, the amount out and the low half of the amount in; the
      reserves and the high half of the amount in are not part of it. */
  lemma LeafBinds(a: Swap, b: Swap)
    requires FourWords(a) && FourWords(b)
    ensures LeafInput(a) == LeafInput(b) <==>
      a.txId == b.txId && a.status == b.status && a.amountOut == b.amountOut && a.amountIn[..2] == b.amountIn[..2]
  {
    SmallPowers();
    var wa := [a.txId, ToU64(a.status)] + a.amountOut + a.amountIn[..2];
    var wb := [b.txId, ToU64(b.status)] + b.amountOut + b.amountIn[..2];
    LeafWords(a, wa);
    LeafWords(b, wb);
    if LeafInput(a) == LeafInput(b) {
      WordsInjective(wa, wb);
      assert a.amountOut == wa[2..6] && b.amountOut == wb[2..6];
      assert a.amountIn[..2] == wa[6..] && b.amountIn[..2] == wb[6..];
      assert wa[0] == wb[0] && wa[1] == wb[1];
    } else {
      assert wa != wb;
    }
  }

  function Words(w: seq<u64>): bytes
  {
    if w == [] then [] else LE(w[0], 8) + Words(w[1..])
  }

  lemma {:induction false} WordsInjective(a: seq<u64>, b: seq<u64>)
    requires |a| == |b| && Words(a) == Words(b)
    ensures a == b
    decreases |a|
  {
    if a != [] {
      SmallPowers();
      SplitConcat(LE(a[0], 8), Words(a[1..]), LE(b[0], 8), Words(b[1..]));
      LEInjective(a[0], b[0], 8);
      WordsInjective(a[1..], b[1..]);
      HeadTail(a);
      HeadTail(b);
    }
  }

  lemma LeafWords(s: Swap, w: seq<u64>)
    requires FourWords(s) && w == [s.txId, ToU64(s.status)] + s.amountOut + s.amountIn[..2]
    ensures LeafInput(s) == Words(w)
  {
    assert w[2] == s.amountOut[0] && w[3] == s.amountOut[1] && w[4] == s.amountOut[2] && w[5] == s.amountOut[3];
    assert w[6] == s.amountIn[0] && w[7] == s.amountIn[1];
    assert Words(w[8..]) == [];
    assert Words(w[7..]) == LE(w[7], 8) + Words(w[7..][1..]) && w[7..][1..] == w[8..];
    assert Words(w[6..]) == LE(w[6], 8) + Words(w[6..][1..]) && w[6..][1..] == w[7..];
    assert Words(w[5..]) == LE(w[5], 8) + Words(w[5..][1..]) && w[5..][1..] == w[6..];
    assert Words(w[4..]) == LE(w[4], 8) + Words(w[4..][1..]) && w[4..][1..] == w[5..];
    assert Words(w[3..]) == LE(w[3], 8) + Words(w[3..][1..]) && w[3..][1..] == w[4..];
    assert Words(w[2..]) == LE(w[2], 8) + Words(w[2..][1..]) && w[2..][1..] == w[3..];
    assert Words(w[1..]) == LE(w[1], 8) + Words(w[1..][1..]) && w[1..][1..] == w[2..];
  }

  // ---------------------------------------------------------------- levels

  /** Two digests side by side. */
  function Join(l: Digest, r: Digest): (b: bytes)
    ensures |b| == 64 && b[..32] == l && b[32..] == r
  {
    var left: bytes := l;
    left + r
  }

  /** The node above position `i`: an unpaired last node is its own sibling. */
  function Parent(h: Hash, level: seq<Digest>, i: nat): Digest
    requires 2 * i < |level|
  {
    h(PairInput(level, i))
  }

  function Up(h: Hash, level: seq<Digest>): (r: seq<Digest>)
    ensures |r| == (|level| + 1) / 2
  {
    seq((|level| + 1) / 2, i requires 0 <= i < (|level| + 1) / 2 => Parent(h, level, i))
  }

  /** The root by rebuilt levels. */
  function Root(h: Hash, level: seq<Digest>): Digest
    requires level != []
    decreases |level|
  {
    if |level| == 1 then level[0] else Root(h, Up(h, level))
  }

  /** The same root, every level written over the beginning of the one below it. */
  method ReduceInPlace(h: Hash, nodes: array<Digest>) returns (root: Digest)
    requires nodes.Length > 0
    modifies nodes
    ensures root == Root(h, old(nodes[..]))
  {
    hide Up;
    var count := nodes.Length;
    assert nodes[..count] == nodes[..];
    while count > 1
      invariant 1 <= count <= nodes.Length
      invariant Root(h, nodes[..count]) == Root(h, old(nodes[..]))
    {
      ReduceLevel(h, nodes, count);
      count := (count + 1) / 2;
    }
    root := nodes[0];
    assert nodes[..count] == [root];
  }

  /** One level: parents are written over the front of the buffer while the rest is still read. */
  method ReduceLevel(h: Hash, nodes: array<Digest>, count: nat)
    requires 1 < count <= nodes.Length
    modifies nodes
    ensures nodes[..(count + 1) / 2] == Up(h, old(nodes[..count]))
  {
    hide Parent, Up, Join;
    ghost var level := nodes[..count];
    ghost var up := Up(h, level);
    var i := 0;
    while i < count
      invariant i % 2 == 0 && 0 <= i <= count + 1
      invariant nodes[..i / 2] == up[..i / 2]
      invariant forall k :: i <= k < count ==> nodes[k] == level[k]
    {
      var right := if i + 1 < count then i + 1 else i;
      var parent := h(Join(nodes[i], nodes[right]));
      ParentAt(h, level, i / 2, nodes[i], nodes[right], parent);
      ghost var done := nodes[..i / 2];
      nodes[i / 2] := parent;
      assert nodes[..i / 2 + 1] == done + [parent];
      TakeSnoc(up, i / 2);
      i := i + 2;
    }
  }

  lemma ParentAt(h: Hash, level: seq<Digest>, i: nat, left: Digest, right: Digest, parent: Digest)
    requires 2 * i < |level| && left == level[2 * i] && parent == h(Join(left, right))
    requires right == if 2 * i + 1 < |level| then level[2 * i + 1] else left
    ensures Up(h, level)[i] == parent
  {
  }

  method BatchRoot(h: Hash, swaps: seq<Swap>) returns (root: Digest)
    requires forall i :: 0 <= i < |swaps| ==> FourWords(swaps[i])
    ensures root == if swaps == [] then seq(32, _ => 0) else Root(h, Leaves(h, swaps))
  {
    if |swaps| == 0 { return seq(32, _ => 0); }
    var zero: Digest := seq(32, _ => 0);
    var nodes := new Digest[|swaps|](_ => zero);
    for i := 0 to |swaps|
      invariant nodes[..i] == Leaves(h, swaps)[..i]
    {
      nodes[i] := h(LeafInput(swaps[i]));
      assert nodes[..i + 1] == nodes[..i] + [nodes[i]];
    }
    assert nodes[..] == Leaves(h, swaps);
    root := ReduceInPlace(h, nodes);
  }

  function LeafHash(h: Hash, s: Swap): Digest
    requires FourWords(s)
  {
    h(LeafInput(s))
  }

  function Leaves(h: Hash, swaps: seq<Swap>): (r: seq<Digest>)
    requires forall i :: 0 <= i < |swaps| ==> FourWords(swaps[i])
    ensures |r| == |swaps|
  {
    seq(|swaps|, i requires 0 <= i < |swaps| => LeafHash(h, swaps[i]))
  }

  // ---------------------------------------------------------------- what the root binds

  /** Everything hashed above a level. */
  ghost function Hashed(h: Hash, level: seq<Digest>): set<bytes>
    requires level != []
    decreases |level|
  {
    if |level| == 1 then {} else Pairs(level) + Hashed(h, Up(h, level))
  }

  ghost function Pairs(level: seq<Digest>): set<bytes>
  {
    set i | 0 <= i < (|level| + 1) / 2 :: PairInput(level, i)
  }

  function PairInput(level: seq<Digest>, i: nat): bytes
    requires 2 * i < |level|
  {
    Join(level[2 * i], if 2 * i + 1 < |level| then level[2 * i + 1] else level[2 * i])
  }

  lemma PairAgrees(h: Hash, a: seq<Digest>, b: seq<Digest>, j: nat, all: set<bytes>)
    requires |a| == |b| && 2 * j < |a| && Up(h, a)[j] == Up(h, b)[j]
    requires PairInput(a, j) in all && PairInput(b, j) in all && !CollisionIn(h, all)
    ensures a[2 * j] == b[2 * j] && (2 * j + 1 < |a| ==> a[2 * j + 1] == b[2 * j + 1])
  {
    Separated(h, all, PairInput(a, j), PairInput(b, j));
  }

  lemma LevelAgrees(h: Hash, a: seq<Digest>, b: seq<Digest>, all: set<bytes>)
    requires |a| == |b| > 1 && Up(h, a) == Up(h, b)
    requires Hashed(h, a) <= all && Hashed(h, b) <= all && !CollisionIn(h, all)
    ensures a == b
  {
    hide PairInput, Up, CollisionIn;
    forall i | 0 <= i < |a| ensures a[i] == b[i] {
      PairHashed(h, a, i / 2);
      PairHashed(h, b, i / 2);
      PairAgrees(h, a, b, i / 2, all);
    }
  }

  lemma PairHashed(h: Hash, a: seq<Digest>, j: nat)
    requires |a| > 1 && 2 * j < |a|
    ensures PairInput(a, j) in Hashed(h, a)
  {
  }

  /** Among batches of one size, the root binds every leaf digest. */
  lemma {:induction false} SameSizeBinding(h: Hash, a: seq<Digest>, b: seq<Digest>)
    requires |a| == |b| && a != [] && Root(h, a) == Root(h, b)
    ensures a == b || CollisionIn(h, Hashed(h, a) + Hashed(h, b))
  {
    var all := Hashed(h, a) + Hashed(h, b);
    if !CollisionIn(h, all) {
      BoundIn(h, a, b, all);
    }
  }

  lemma {:induction false} BoundIn(h: Hash, a: seq<Digest>, b: seq<Digest>, all: set<bytes>)
    requires |a| == |b| && a != [] && Root(h, a) == Root(h, b)
    requires Hashed(h, a) <= all && Hashed(h, b) <= all && !CollisionIn(h, all)
    ensures a == b
    decreases |a|
  {
    hide PairInput, Up, CollisionIn;
    if |a| == 1 {
      assert a == [a[0]] && b == [b[0]];
    } else {
      BoundIn(h, Up(h, a), Up(h, b), all);
      LevelAgrees(h, a, b, all);
    }
  }

  lemma PairRepeated(a: seq<Digest>, b: seq<Digest>, i: nat)
    requires |a| % 2 == 1 && |b| == |a| + 1 && b[..|a|] == a && b[|a|] == a[|a| - 1] && 2 * i < |a|
    ensures PairInput(b, i) == PairInput(a, i)
  {
    hide Join;
    assert b[2 * i] == b[..|a|][2 * i];
    if 2 * i + 1 < |a| {
      assert b[2 * i + 1] == b[..|a|][2 * i + 1];
    }
  }

  /** The root does not bind the size: repeating the last leaf of an odd batch of more than one
      changes nothing. */
  lemma LastRepeated(h: Hash, a: seq<Digest>, b: seq<Digest>)
    requires |a| % 2 == 1 && |a| > 1 && |b| == |a| + 1 && b[..|a|] == a && b[|a|] == a[|a| - 1]
    ensures Root(h, b) == Root(h, a)
  {
    hide PairInput;
    forall i | 0 <= i < (|a| + 1) / 2 ensures Up(h, b)[i] == Up(h, a)[i] {
      PairRepeated(a, b, i);
    }
    assert Up(h, b) == Up(h, a);
  }

  // ---------------------------------------------------------------- whole batches

  ghost predicate Batch(swaps: seq<Swap>)
  {
    swaps != [] && forall i :: 0 <= i < |swaps| ==> FourWords(swaps[i])
  }

  /** What the root of a batch is meant to say about one of its swaps. */
  ghost predicate SameSettlement(a: Swap, b: Swap)
    requires FourWords(a) && FourWords(b)
  {
    a.txId == b.txId && a.status == b.status && a.amountOut == b.amountOut && a.amountIn[..2] == b.amountIn[..2]
  }

  ghost function LeafInputs(swaps: seq<Swap>): set<bytes>
    requires Batch(swaps)
  {
    set i | 0 <= i < |swaps| :: LeafInput(swaps[i])
  }

  /** Every string hashed for the root of a batch, leaves included. */
  ghost function AllHashed(h: Hash, swaps: seq<Swap>): set<bytes>
    requires Batch(swaps)
  {
    LeafInputs(swaps) + Hashed(h, Leaves(h, swaps))
  }

  /** Batches of one size with one root settle the same, swap by swap, or two of the strings
      hashed for the two roots collide. */
  lemma SameSizeSettlement(h: Hash, a: seq<Swap>, b: seq<Swap>)
    requires Batch(a) && Batch(b) && |a| == |b| && Root(h, Leaves(h, a)) == Root(h, Leaves(h, b))
    ensures (forall i :: 0 <= i < |a| ==> SameSettlement(a[i], b[i]))
            || CollisionIn(h, AllHashed(h, a) + AllHashed(h, b))
  {
    hide Root, Hashed, LeafInput;
    var all := AllHashed(h, a) + AllHashed(h, b);
    if !CollisionIn(h, all) {
      BoundIn(h, Leaves(h, a), Leaves(h, b), all);
      forall i | 0 <= i < |a| ensures SameSettlement(a[i], b[i]) {
        assert Leaves(h, a)[i] == Leaves(h, b)[i];
        assert LeafInput(a[i]) in all && LeafInput(b[i]) in all;
        Separated(h, all, LeafInput(a[i]), LeafInput(b[i]));
        LeafBinds(a[i], b[i]);
      }
    }
  }

  // ---------------------------------------------------------------- sizes are not bound

  lemma WordAt(b: bytes, i: nat) returns (w: u64)
    requires i + 8 <= |b|
    ensures LE(w, 8) == b[i..i + 8]
  {
    SmallPowers();
    FromLERoundTrip(b[i..i + 8]);
    w := FromLE(b[i..i + 8]);
  }

  /** Every string of 64 bytes is the leaf of some swap; an inner node is such a string. */
  lemma AnyLeaf(b: bytes) returns (s: Swap)
    requires |b| == 64
    ensures FourWords(s) && LeafInput(s) == b
  {
    hide LE, FromLE, LeafInput, ToU64, FromU64;
    var w0 := WordAt(b, 0);
    var w1 := WordAt(b, 8);
    var w2 := WordAt(b, 16);
    var w3 := WordAt(b, 24);
    var w4 := WordAt(b, 32);
    var w5 := WordAt(b, 40);
    var w6 := WordAt(b, 48);
    var w7 := WordAt(b, 56);
    var zero: seq<u64> := [0, 0, 0, 0];
    s := Swap(w0, [w6, w7, 0, 0], zero, zero, [w2, w3, w4, w5], FromU64(w1));
    SignedBack(w1);
    EightSlices(b);
    LeafIs(s, b[0..8], b[8..16], b[16..24], b[24..32], b[32..40], b[40..48], b[48..56], b[56..64]);
  }

  lemma SignedBack(w: u64)
    ensures ToU64(FromU64(w)) == w
  {
  }

  lemma LeafIs(s: Swap, b0: bytes, b1: bytes, b2: bytes, b3: bytes, b4: bytes, b5: bytes, b6: bytes, b7: bytes)
    requires FourWords(s) && LE(s.txId, 8) == b0 && LE(ToU64(s.status), 8) == b1
    requires LE(s.amountOut[0], 8) == b2 && LE(s.amountOut[1], 8) == b3
    requires LE(s.amountOut[2], 8) == b4 && LE(s.amountOut[3], 8) == b5
    requires LE(s.amountIn[0], 8) == b6 && LE(s.amountIn[1], 8) == b7
    ensures LeafInput(s) == b0 + (b1 + (b2 + (b3 + (b4 + (b5 + (b6 + b7))))))
  {
    hide LE, ToU64;
  }

  lemma EightSlices(b: bytes)
    requires |b| == 64
    ensures b == b[0..8] + (b[8..16] + (b[16..24] + (b[24..32] + (b[32..40] + (b[40..48] + (b[48..56] + b[56..64]))))))
  {
    JoinSlices(b, 48, 56, 64);
    JoinSlices(b, 40, 48, 64);
    JoinSlices(b, 32, 40, 64);
    JoinSlices(b, 24, 32, 64);
    JoinSlices(b, 16, 24, 64);
    JoinSlices(b, 8, 16, 64);
    JoinSlices(b, 0, 8, 64);
    assert b[0..64] == b;
  }

  /** The string hashed last for the root of a level of more than one digest. */
  function Last(h: Hash, level: seq<Digest>): bytes
    requires |level| > 1
    decreases |level|
  {
    if |level| == 2 then PairInput(level, 0) else Last(h, Up(h, level))
  }

  lemma {:induction false} LastIsRoot(h: Hash, level: seq<Digest>)
    requires |level| > 1
    ensures |Last(h, level)| == 64 && Last(h, level) in Hashed(h, level) && Root(h, level) == h(Last(h, level))
    decreases |level|
  {
    hide PairInput, Parent;
    if |level| == 2 {
      TopPair(h, level);
    } else {
      LastIsRoot(h, Up(h, level));
      assert Hashed(h, Up(h, level)) <= Hashed(h, level);
    }
  }

  lemma TopPair(h: Hash, level: seq<Digest>)
    requires |level| == 2
    ensures |PairInput(level, 0)| == 64 && PairInput(level, 0) in Hashed(h, level)
    ensures Root(h, level) == h(PairInput(level, 0))
  {
    PairHashed(h, level, 0);
    assert |Up(h, level)| == 1 && Up(h, level)[0] == Parent(h, level, 0);
  }

  /** Every batch of more than one swap has the root of a batch of one, whose leaf is the top
      node; nothing is hashed for the one swap that is not hashed for the batch anyway. */
  lemma OneSwapBatch(h: Hash, a: seq<Swap>) returns (t: Swap)
    requires Batch(a) && |a| > 1
    ensures Batch([t]) && Root(h, Leaves(h, [t])) == Root(h, Leaves(h, a)) && AllHashed(h, [t]) <= AllHashed(h, a)
  {
    hide LeafInput, Root, Hashed, Last;
    var level := Leaves(h, a);
    LastIsRoot(h, level);
    t := AnyLeaf(Last(h, level));
    OneLeaf(h, t);
  }

  lemma OneLeaf(h: Hash, t: Swap)
    requires FourWords(t)
    ensures Batch([t]) && Root(h, Leaves(h, [t])) == h(LeafInput(t)) && AllHashed(h, [t]) == {LeafInput(t)}
  {
    hide LeafInput;
    assert Leaves(h, [t]) == [LeafHash(h, t)];
    CopiesLeaves([t], t);
  }

  lemma CopiesLeaves(swaps: seq<Swap>, s: Swap)
    requires Batch(swaps) && FourWords(s) && forall i :: 0 <= i < |swaps| ==> swaps[i] == s
    ensures LeafInputs(swaps) == {LeafInput(s)}
  {
    hide LeafInput;
    assert LeafInput(swaps[0]) in LeafInputs(swaps);
  }

  // ---------------------------------------------------------------- constant batches

  /** The digest `k` levels above a level that repeats `d`. */
  function Climb(h: Hash, d: Digest, k: nat): Digest
  {
    if k == 0 then d else h(Join(Climb(h, d, k - 1), Climb(h, d, k - 1)))
  }

  function Copies(d: Digest, n: nat): (r: seq<Digest>)
    ensures |r| == n
  {
    seq(n, _ => d)
  }

  /** The number of levels above `n` nodes. */
  function Levels(n: nat): nat
  {
    if n <= 1 then 0 else 1 + Levels((n + 1) / 2)
  }

  lemma UpCopies(h: Hash, d: Digest, n: nat)
    ensures Up(h, Copies(d, n)) == Copies(h(Join(d, d)), (n + 1) / 2)
  {
    hide Join;
  }

  lemma {:induction false} ClimbFrom(h: Hash, d: Digest, k: nat)
    ensures Climb(h, h(Join(d, d)), k) == Climb(h, d, k + 1)
  {
    hide Join;
    if k > 0 {
      ClimbFrom(h, d, k - 1);
    } else {
      assert Climb(h, d, 0) == d;
    }
  }

  ghost function Climbed(h: Hash, d: Digest, k: nat): set<bytes>
  {
    if k == 0 then {} else Climbed(h, d, k - 1) + {Join(Climb(h, d, k - 1), Climb(h, d, k - 1))}
  }

  lemma {:induction false} ClimbedFrom(h: Hash, d: Digest, k: nat)
    ensures Climbed(h, d, k + 1) == {Join(d, d)} + Climbed(h, h(Join(d, d)), k)
  {
    hide Join;
    if k == 0 {
      assert Climb(h, d, 0) == d && Climbed(h, d, 0) == {};
    } else {
      ClimbedFrom(h, d, k - 1);
      ClimbFrom(h, d, k - 1);
    }
  }

  /** A level of copies needs one hash per level. */
  lemma {:induction false} RootOfCopies(h: Hash, d: Digest, n: nat)
    requires n > 0
    ensures Root(h, Copies(d, n)) == Climb(h, d, Levels(n)) && Hashed(h, Copies(d, n)) == Climbed(h, d, Levels(n))
    decreases n
  {
    hide Join, Up, Root, Hashed, Climb, Climbed, Copies, Pairs;
    if n == 1 {
      OneCopy(h, d);
    } else {
      var up := h(Join(d, d));
      OneLevelUp(h, Copies(d, n));
      UpCopies(h, d, n);
      RootOfCopies(h, up, (n + 1) / 2);
      ClimbFrom(h, d, Levels((n + 1) / 2));
      ClimbedFrom(h, d, Levels((n + 1) / 2));
      CopiesPairs(d, n);
    }
  }

  lemma OneLevelUp(h: Hash, level: seq<Digest>)
    requires |level| > 1
    ensures Root(h, level) == Root(h, Up(h, level))
    ensures Hashed(h, level) == Pairs(level) + Hashed(h, Up(h, level))
  {
    hide Up, Pairs;
  }

  lemma OneCopy(h: Hash, d: Digest)
    ensures Root(h, Copies(d, 1)) == Climb(h, d, 0) && Hashed(h, Copies(d, 1)) == Climbed(h, d, 0)
  {
  }

  lemma CopiesPairs(d: Digest, n: nat)
    requires n > 1
    ensures Pairs(Copies(d, n)) == {Join(d, d)}
  {
    hide Join;
    assert forall i :: 0 <= i < (n + 1) / 2 ==> PairInput(Copies(d, n), i) == Join(d, d);
    assert PairInput(Copies(d, n), 0) == Join(d, d);
  }

  lemma {:induction false} LevelsMonotone(m: nat, n: nat)
    requires m <= n
    ensures Levels(m) <= Levels(n)
    decreases n
  {
    if m > 1 {
      LevelsMonotone((m + 1) / 2, (n + 1) / 2);
    }
  }

  lemma {:induction false} ClimbSum(h: Hash, d: Digest, j: nat, k: nat)
    ensures Climb(h, Climb(h, d, j), k) == Climb(h, d, j + k)
    ensures Climbed(h, Climb(h, d, j), k) <= Climbed(h, d, j + k)
    decreases k
  {
    hide Join;
    if k > 0 {
      ClimbSum(h, d, j, k - 1);
    }
  }

  lemma {:induction false} ClimbedHas(h: Hash, d: Digest, j: nat, k: nat)
    requires 0 < j <= k
    ensures Join(Climb(h, d, j - 1), Climb(h, d, j - 1)) in Climbed(h, d, k)
    decreases k
  {
    hide Join;
    if j < k {
      ClimbedHas(h, d, j, k - 1);
    }
  }

  function Repeat(s: Swap, n: nat): (r: seq<Swap>)
    ensures |r| == n && forall i :: 0 <= i < n ==> r[i] == s
  {
    seq(n, _ => s)
  }

  lemma RepeatedBatch(h: Hash, s: Swap, n: nat)
    requires FourWords(s) && n > 0
    ensures var a, d := Repeat(s, n), LeafHash(h, s);
            && Batch(a) && Root(h, Leaves(h, a)) == Climb(h, d, Levels(n))
            && AllHashed(h, a) == {LeafInput(s)} + Climbed(h, d, Levels(n))
  {
    hide LeafInput, Root, Hashed, Climb, Climbed;
    var a := Repeat(s, n);
    assert Leaves(h, a) == Copies(LeafHash(h, s), n);
    RootOfCopies(h, LeafHash(h, s), n);
    CopiesLeaves(a, s);
  }

  /** The batches have one root. */
  ghost predicate OneRoot(h: Hash, a: seq<Swap>, b: seq<Swap>)
  {
    Batch(a) && Batch(b) && Root(h, Leaves(h, a)) == Root(h, Leaves(h, b))
  }

  /** They settle the same swaps, or computing the two roots meets a collision. */
  ghost predicate Bound(h: Hash, a: seq<Swap>, b: seq<Swap>)
    requires Batch(a) && Batch(b)
  {
    || (|a| == |b| && forall i :: 0 <= i < |a| ==> SameSettlement(a[i], b[i]))
    || CollisionIn(h, AllHashed(h, a) + AllHashed(h, b))
  }

  /** Batches of `n` copies of any swap share their root with batches of every smaller size, and
      nothing is hashed for the smaller one that is not hashed for the larger one anyway. */
  lemma SmallerBatch(h: Hash, s: Swap, m: nat, n: nat) returns (t: Swap)
    requires FourWords(s) && 0 < m < n
    ensures FourWords(t) && OneRoot(h, Repeat(t, m), Repeat(s, n))
    ensures AllHashed(h, Repeat(t, m)) <= AllHashed(h, Repeat(s, n))
  {
    hide LeafInput, Root, Hashed, Climb, Climbed, Join;
    var d, k := LeafHash(h, s), Levels(m);
    LevelsMonotone(m, n);
    var j: nat := Levels(n) - k;
    RepeatedBatch(h, s, n);
    if j == 0 {
      t := s;
      RepeatedBatch(h, t, m);
    } else {
      var below := Climb(h, d, j - 1);
      t := AnyLeaf(Join(below, below));
      ClimbStep(h, d, j);
      ClimbSum(h, d, j, k);
      ClimbedHas(h, d, j, Levels(n));
      RepeatedBatch(h, t, m);
    }
  }

  lemma ClimbStep(h: Hash, d: Digest, j: nat)
    requires j > 0
    ensures Climb(h, d, j) == h(Join(Climb(h, d, j - 1), Climb(h, d, j - 1)))
  {
  }

  /** One of the batches makes the other one hash nothing of its own. */
  ghost predicate NothingNew(h: Hash, a: seq<Swap>, b: seq<Swap>)
    requires Batch(a) && Batch(b)
  {
    AllHashed(h, a) <= AllHashed(h, b) || AllHashed(h, b) <= AllHashed(h, a)
  }

  ghost predicate Pair(a: seq<Swap>, b: seq<Swap>, m: nat, n: nat)
  {
    |a| == m && |b| == n
  }

  /** The root binds batches of sizes m and n exactly when m == n.  For equal sizes one root means
      the same settlements, up to a collision.  For different sizes there are batches with one
      root for every hash function, and without any collision beyond those in hashing the
      larger one. */
  lemma RootBindsSizes(h: Hash, m: nat, n: nat)
    requires m > 0 && n > 0
    ensures m == n ==> forall a, b :: Pair(a, b, m, n) && OneRoot(h, a, b) ==> Bound(h, a, b)
    ensures m != n ==> exists a, b :: Pair(a, b, m, n) && OneRoot(h, a, b) && NothingNew(h, a, b)
  {
    hide LeafInput, Root, AllHashed;
    if m == n {
      forall a, b | Pair(a, b, m, n) && OneRoot(h, a, b) ensures Bound(h, a, b) {
        SameSizeSettlement(h, a, b);
      }
    } else {
      var s := AnyLeaf(seq(64, _ => 0));
      if m < n {
        var t := SmallerBatch(h, s, m, n);
        assert Pair(Repeat(t, m), Repeat(s, n), m, n);
      } else {
        var t := SmallerBatch(h, s, n, m);
        assert OneRoot(h, Repeat(s, m), Repeat(t, n));
        assert Pair(Repeat(s, m), Repeat(t, n), m, n);
      }
    }
  }
}
