/** Full binary hash trees, the sibling paths taken from them, and the check of such a path. */
module MerkleProof {
  import opened Bytes
  import opened Seqs
  import opened Int64

  /** "lin:study:v1:node" */
  const NODE_DOM: bytes := [0x6C, 0x69, 0x6E, 0x3A, 0x73, 0x74, 0x75, 0x64, 0x79, 0x3A, 0x76, 0x31, 0x3A,
                            0x6E, 0x6F, 0x64, 0x65]

  function NodeInput(l: Digest, r: Digest): bytes
  {
    NODE_DOM + (l + r)
  }

  lemma NodeInjective(l: Digest, r: Digest, l': Digest, r': Digest)
    requires NodeInput(l, r) == NodeInput(l', r')
    ensures l == l' && r == r'
  {
    var a: bytes := l;
    var b: bytes := l';
    SplitConcat(NODE_DOM, a + r, NODE_DOM, b + r');
    SplitConcat(a, r, b, r');
  }

  // ---------------------------------------------------------------- trees

  function Parent(h: Hash, level: seq<Digest>, i: nat): Digest
    requires 2 * i + 1 < |level|
  {
    h(NodeInput(level[2 * i], level[2 * i + 1]))
  }

  function Up(h: Hash, level: seq<Digest>): (r: seq<Digest>)
    requires |level| % 2 == 0
    ensures |r| == |level| / 2
  {
    seq(|level| / 2, i requires 0 <= i < |level| / 2 => Parent(h, level, i))
  }

  /** The levels of a tree with 2^k leaves, leaves first. */
  function Levels(h: Hash, leaves: seq<Digest>, k: nat): (r: seq<seq<Digest>>)
    requires |leaves| == Pow2(k)
    ensures |r| == k + 1
    decreases k
  {
    if k == 0 then [leaves] else [leaves] + Levels(h, Up(h, leaves), k - 1)
  }

  function Root(h: Hash, leaves: seq<Digest>, k: nat): Digest
    requires |leaves| == Pow2(k)
    decreases k
  {
    if k == 0 then leaves[0] else Root(h, Up(h, leaves), k - 1)
  }

  /** Full trees have a power of two many leaves. */
  ghost predicate Full(leaves: seq<Digest>)
  {
    exists k: nat :: |leaves| == Pow2(k)
  }

  lemma {:induction false} DepthUnique(j: nat, k: nat)
    requires Pow2(j) == Pow2(k)
    ensures j == k
  {
    if j > 0 && k > 0 { DepthUnique(j - 1, k - 1); }
  }

  method BuildTree(h: Hash, leaves: seq<Digest>) returns (levels: seq<seq<Digest>>)
    requires Full(leaves)
    ensures forall k: nat :: |leaves| == Pow2(k) ==>
              levels == Levels(h, leaves, k) && levels[k] == [Root(h, leaves, k)]
  {
    ghost var k: nat :| |leaves| == Pow2(k);
    levels := [leaves];
    var cur := leaves;
    ghost var left: nat := k;
    while |cur| > 1
      invariant left <= k && |cur| == Pow2(left) && |levels| == k - left + 1 && levels[|levels| - 1] == cur
      invariant levels + Levels(h, cur, left)[1..] == Levels(h, leaves, k)
      invariant Root(h, cur, left) == Root(h, leaves, k)
      decreases left
    {
      PowerAboveOne(left);
      ghost var before := cur;
      var next: seq<Digest> := [];
      for i := 0 to |cur| / 2
        invariant next == Up(h, cur)[..i]
      {
        next := next + [Parent(h, cur, i)];
      }
      assert next == Up(h, cur);
      cur := next;
      assert Levels(h, before, left)[1..] == Levels(h, cur, left - 1);
      assert Levels(h, cur, left - 1) == [cur] + Levels(h, cur, left - 1)[1..];
      Regroup(levels, [cur], Levels(h, cur, left - 1)[1..]);
      levels := levels + [cur];
      left := left - 1;
    }
    PowerAboveOne(left);
    assert Levels(h, cur, left)[1..] == [];
    assert levels[k] == cur == [cur[0]];
    forall j: nat | |leaves| == Pow2(j) ensures j == k {
      DepthUnique(j, k);
    }
  }

  lemma PowerAboveOne(k: nat)
    ensures Pow2(k) > 1 <==> k > 0
    ensures k > 0 ==> Pow2(k) % 2 == 0
  {
  }

  // ---------------------------------------------------------------- paths

  /** idx ^ 1 */
  function Sibling(idx: nat): nat
  {
    if idx % 2 == 0 then idx + 1 else idx - 1
  }

  function Path(h: Hash, leaves: seq<Digest>, k: nat, idx: nat): (r: seq<Digest>)
    requires |leaves| == Pow2(k) && idx < Pow2(k)
    ensures |r| == k
    decreases k
  {
    if k == 0 then [] else [leaves[Sibling(idx)]] + Path(h, Up(h, leaves), k - 1, idx / 2)
  }

  lemma {:induction false} LevelsAt(h: Hash, leaves: seq<Digest>, k: nat, d: nat)
    requires |leaves| == Pow2(k) && d <= k
    ensures |Levels(h, leaves, k)[d]| == Pow2(k - d)
    ensures Levels(h, leaves, k)[d..] == Levels(h, Levels(h, leaves, k)[d], k - d)
    decreases k
  {
    var all := Levels(h, leaves, k);
    if d > 0 {
      LevelsAt(h, Up(h, leaves), k - 1, d - 1);
      assert all[d..] == Levels(h, Up(h, leaves), k - 1)[d - 1..];
    } else {
      assert all[0..] == all;
    }
  }

  lemma NextLevel(h: Hash, leaves: seq<Digest>, k: nat, d: nat)
    requires |leaves| == Pow2(k) && d < k
    ensures var levels := Levels(h, leaves, k);
            |levels[d]| == Pow2(k - d) && |levels[d]| % 2 == 0 && levels[d + 1] == Up(h, levels[d])
  {
    var levels := Levels(h, leaves, k);
    LevelsAt(h, leaves, k, d);
    PowerAboveOne(k - d);
    assert levels[d + 1] == levels[d..][1];
  }

  lemma PathStep(h: Hash, path: seq<Digest>, level: seq<Digest>, up: seq<Digest>, k: nat, at: nat)
    requires k > 0 && |level| == Pow2(k) && at < Pow2(k) && up == Up(h, level)
    ensures path + Path(h, level, k, at) == (path + [level[Sibling(at)]]) + Path(h, up, k - 1, at / 2)
  {
    Regroup(path, [level[Sibling(at)]], Path(h, up, k - 1, at / 2));
  }

  method GetProof(h: Hash, leaves: seq<Digest>, levels: seq<seq<Digest>>, k: nat, idx: nat) returns (path: seq<Digest>)
    requires |leaves| == Pow2(k) && levels == Levels(h, leaves, k) && idx < Pow2(k)
    ensures path == Path(h, leaves, k, idx)
  {
    hide Up, Levels, Path;
    path := [];
    var at: nat := idx;
    FirstLevel(h, leaves, k);
    for d := 0 to |levels| - 1
      invariant |levels[d]| == Pow2(k - d) && at < Pow2(k - d)
      invariant path + Path(h, levels[d], k - d, at) == Path(h, leaves, k, idx)
    {
      NextLevel(h, leaves, k, d);
      PathStep(h, path, levels[d], levels[d + 1], k - d, at);
      path := path + [levels[d][Sibling(at)]];
      at := at / 2;
    }
    PathEnd(h, path, levels[k], at);
  }

  lemma FirstLevel(h: Hash, leaves: seq<Digest>, k: nat)
    requires |leaves| == Pow2(k)
    ensures Levels(h, leaves, k)[0] == leaves
  {
  }

  lemma PathEnd(h: Hash, path: seq<Digest>, level: seq<Digest>, at: nat)
    requires |level| == Pow2(0) && at < Pow2(0)
    ensures path + Path(h, level, 0, at) == path
  {
    assert path + [] == path;
  }

  /** The step up from a node and its sibling. */
  function Combine(cur: Digest, sib: Digest, idx: nat): bytes
  {
    if idx % 2 == 0 then NodeInput(cur, sib) else NodeInput(sib, cur)
  }

  function Fold(h: Hash, cur: Digest, path: seq<Digest>, idx: nat): Digest
    decreases |path|
  {
    if path == [] then cur else Fold(h, h(Combine(cur, path[0], idx)), path[1..], idx / 2)
  }

  method VerifyProof(h: Hash, leaf: Digest, path: seq<Digest>, idx: nat, root: Digest) returns (ok: bool)
    ensures ok <==> Fold(h, leaf, path, idx) == root
  {
    var cur: Digest, at: nat := leaf, idx;
    for i := 0 to |path|
      invariant Fold(h, cur, path[i..], at) == Fold(h, leaf, path, idx)
    {
      assert path[i..][1..] == path[i + 1..];
      cur := if at % 2 == 0 then h(NodeInput(cur, path[i])) else h(NodeInput(path[i], cur));
      at := at / 2;
    }
    return cur == root;
  }

  /** The path of every leaf of every full tree verifies. */
  lemma {:induction false} ProofVerifies(h: Hash, leaves: seq<Digest>, k: nat, idx: nat)
    requires |leaves| == Pow2(k) && idx < Pow2(k)
    ensures Fold(h, leaves[idx], Path(h, leaves, k, idx), idx) == Root(h, leaves, k)
    decreases k
  {
    if k > 0 {
      var up := Up(h, leaves);
      assert up[idx / 2] == Parent(h, leaves, idx / 2);
      assert h(Combine(leaves[idx], leaves[Sibling(idx)], idx)) == up[idx / 2];
      assert Path(h, leaves, k, idx)[1..] == Path(h, up, k - 1, idx / 2);
      ProofVerifies(h, up, k - 1, idx / 2);
    }
  }

  // ---------------------------------------------------------------- soundness

  ghost function TreeInputs(h: Hash, leaves: seq<Digest>, k: nat): set<bytes>
    requires |leaves| == Pow2(k)
    decreases k
  {
    if k == 0 then {}
    else
      (set i | 0 <= i < |leaves| / 2 :: NodeInput(leaves[2 * i], leaves[2 * i + 1]))
      + TreeInputs(h, Up(h, leaves), k - 1)
  }

  ghost function FoldInputs(h: Hash, cur: Digest, path: seq<Digest>, idx: nat): set<bytes>
    decreases |path|
  {
    if path == [] then {}
    else {Combine(cur, path[0], idx)} + FoldInputs(h, h(Combine(cur, path[0], idx)), path[1..], idx / 2)
  }

  lemma HalfIndex(idx: nat, k: nat)
    requires k > 0
    ensures (idx % Pow2(k)) / 2 == (idx / 2) % Pow2(k - 1) && (idx % Pow2(k)) % 2 == idx % 2
  {
    var m := Pow2(k - 1);
    var q, r := (idx / 2) / m, (idx / 2) % m;
    assert idx / 2 == m * q + r;
    Doubled(m, q);
    QuotientIs(idx, 2 * m, q, 2 * r + idx % 2);
  }

  lemma Doubled(m: nat, q: nat)
    ensures 2 * (m * q) == (2 * m) * q
  {
  }

  /** The level of a full tree that has 2^e digests. */
  function Level(h: Hash, leaves: seq<Digest>, k: nat, e: nat): (level: seq<Digest>)
    requires |leaves| == Pow2(k) && e <= k
    ensures |level| == Pow2(e)
  {
    LevelsAt(h, leaves, k, k - e);
    Levels(h, leaves, k)[k - e]
  }

  /** Each level is the leaves of a tree with the same root. */
  lemma {:induction false} LevelRoot(h: Hash, leaves: seq<Digest>, k: nat, e: nat)
    requires |leaves| == Pow2(k) && e <= k
    ensures Root(h, Level(h, leaves, k, e), e) == Root(h, leaves, k)
    ensures TreeInputs(h, Level(h, leaves, k, e), e) <= TreeInputs(h, leaves, k)
    decreases k
  {
    hide NodeInput;
    if e < k {
      LevelRoot(h, Up(h, leaves), k - 1, e);
    }
  }

  /** idx >> t, one bit at a time */
  function Halved(idx: nat, t: nat): nat
  {
    if t == 0 then idx else Halved(idx / 2, t - 1)
  }

  lemma {:induction false} FoldConcat(h: Hash, x: Digest, path: seq<Digest>, t: nat, idx: nat)
    requires t <= |path|
    ensures Fold(h, x, path, idx) == Fold(h, Fold(h, x, path[..t], idx), path[t..], Halved(idx, t))
    ensures FoldInputs(h, Fold(h, x, path[..t], idx), path[t..], Halved(idx, t)) <= FoldInputs(h, x, path, idx)
    decreases t
  {
    hide Combine;
    if t == 0 {
      assert path[..0] == [] && path[0..] == path;
    } else {
      FoldConcat(h, h(Combine(x, path[0], idx)), path[1..], t - 1, idx / 2);
      assert path[..t][1..] == path[1..][..t - 1] && path[1..][t - 1..] == path[t..];
    }
  }

  /** What a path that verifies proves, with t its digests in excess of the depth of the tree:
      those lead from x to the node that the rest of the path starts from; that rest is the path
      of a node on the level of 2^e digests, and the bits of the index above e are ignored. */
  ghost predicate Proved(h: Hash, leaves: seq<Digest>, k: nat, idx: nat, x: Digest, path: seq<Digest>)
    requires |leaves| == Pow2(k)
  {
    var e := if |path| < k then |path| else k;
    var t := |path| - e;
    var level, at := Level(h, leaves, k, e), Halved(idx, t) % Pow2(e);
    Fold(h, x, path[..t], idx) == level[at] && path[t..] == Path(h, level, e, at)
  }

  /** Whatever verifies, with a path of any length, is the node that the index names on the level
      at this distance from the root, with the node's own path; or the check and the tree
      together hashed two strings to one digest. */
  lemma ProofBinding(h: Hash, leaves: seq<Digest>, k: nat, idx: nat, x: Digest, path: seq<Digest>)
    requires |leaves| == Pow2(k)
    requires Fold(h, x, path, idx) == Root(h, leaves, k)
    ensures Proved(h, leaves, k, idx, x, path)
            || CollisionIn(h, TreeInputs(h, leaves, k) + FoldInputs(h, x, path, idx))
  {
    hide CollisionIn, Fold, FoldInputs, TreeInputs, Root, Level, Path;
    var all := TreeInputs(h, leaves, k) + FoldInputs(h, x, path, idx);
    if !CollisionIn(h, all) {
      var e := if |path| < k then |path| else k;
      var t := |path| - e;
      LevelRoot(h, leaves, k, e);
      FoldConcat(h, x, path, t, idx);
      BoundIn(h, Level(h, leaves, k, e), e, Halved(idx, t), Fold(h, x, path[..t], idx), path[t..], all);
    }
  }

  /** A path of the depth of the tree is the path of a leaf. */
  lemma LeafProved(h: Hash, leaves: seq<Digest>, k: nat, idx: nat, x: Digest, path: seq<Digest>)
    requires |leaves| == Pow2(k) && |path| == k
    ensures Proved(h, leaves, k, idx, x, path) <==>
            x == leaves[idx % Pow2(k)] && path == Path(h, leaves, k, idx % Pow2(k))
  {
    assert path[..0] == [] && path[0..] == path;
    FirstLevel(h, leaves, k);
  }

  lemma {:induction false} BoundIn(h: Hash, leaves: seq<Digest>, k: nat, idx: nat, x: Digest, path: seq<Digest>,
                                   all: set<bytes>)
    requires |leaves| == Pow2(k) && |path| == k
    requires Fold(h, x, path, idx) == Root(h, leaves, k)
    requires TreeInputs(h, leaves, k) <= all && FoldInputs(h, x, path, idx) <= all && !CollisionIn(h, all)
    ensures x == leaves[idx % Pow2(k)] && path == Path(h, leaves, k, idx % Pow2(k))
    decreases k
  {
    hide CollisionIn, NodeInput, Combine, Up, TreeInputs, FoldInputs, Fold, Root;
    if k == 0 {
      NoLevels(h, leaves, idx, x, path);
    } else {
      var p := idx % Pow2(k);
      HalfIndex(idx, k);
      OneDown(h, leaves, k, idx, x, path);
      BoundIn(h, Up(h, leaves), k - 1, idx / 2, h(Combine(x, path[0], idx)), path[1..], all);
      OneLevel(h, leaves, k, p, idx, x, path[0], all);
      HeadTail(path);
    }
  }

  lemma NoLevels(h: Hash, leaves: seq<Digest>, idx: nat, x: Digest, path: seq<Digest>)
    requires |leaves| == Pow2(0) && path == [] && Fold(h, x, path, idx) == Root(h, leaves, 0)
    ensures x == leaves[idx % Pow2(0)]
  {
  }

  /** One level of the definitions. */
  lemma OneDown(h: Hash, leaves: seq<Digest>, k: nat, idx: nat, x: Digest, path: seq<Digest>)
    requires k > 0 && |leaves| == Pow2(k) && |path| == k
    ensures |leaves| % 2 == 0 && |Up(h, leaves)| == Pow2(k - 1)
    ensures Root(h, leaves, k) == Root(h, Up(h, leaves), k - 1)
    ensures Fold(h, x, path, idx) == Fold(h, h(Combine(x, path[0], idx)), path[1..], idx / 2)
    ensures TreeInputs(h, Up(h, leaves), k - 1) <= TreeInputs(h, leaves, k)
    ensures FoldInputs(h, h(Combine(x, path[0], idx)), path[1..], idx / 2) <= FoldInputs(h, x, path, idx)
    ensures Combine(x, path[0], idx) in FoldInputs(h, x, path, idx)
  {
    hide NodeInput, Combine;
  }

  /** The step from a level of digests to the one below it. */
  lemma OneLevel(h: Hash, leaves: seq<Digest>, k: nat, p: nat, idx: nat, x: Digest, sib: Digest, all: set<bytes>)
    requires k > 0 && |leaves| == Pow2(k) && p < Pow2(k) && p % 2 == idx % 2
    requires Up(h, leaves)[p / 2] == h(Combine(x, sib, idx))
    requires TreeInputs(h, leaves, k) <= all && Combine(x, sib, idx) in all && !CollisionIn(h, all)
    ensures x == leaves[p] && sib == leaves[Sibling(p)]
  {
    hide CollisionIn, NodeInput, Combine, TreeInputs;
    NodeHashed(h, leaves, k, p / 2);
    assert Up(h, leaves)[p / 2] == Parent(h, leaves, p / 2);
    Siblings(h, leaves[2 * (p / 2)], leaves[2 * (p / 2) + 1], x, sib, idx, all);
  }

  lemma NodeHashed(h: Hash, leaves: seq<Digest>, k: nat, i: nat)
    requires k > 0 && |leaves| == Pow2(k) && 2 * i + 1 < |leaves|
    ensures NodeInput(leaves[2 * i], leaves[2 * i + 1]) in TreeInputs(h, leaves, k)
  {
  }

  lemma Siblings(h: Hash, l: Digest, r: Digest, x: Digest, sib: Digest, idx: nat, all: set<bytes>)
    requires NodeInput(l, r) in all && Combine(x, sib, idx) in all && !CollisionIn(h, all)
    requires h(NodeInput(l, r)) == h(Combine(x, sib, idx))
    ensures if idx % 2 == 0 then x == l && sib == r else x == r && sib == l
  {
    Separated(h, all, NodeInput(l, r), Combine(x, sib, idx));
    if idx % 2 == 0 { NodeInjective(l, r, x, sib); } else { NodeInjective(l, r, sib, x); }
  }
}
