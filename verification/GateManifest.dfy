/** The root over the files of a release gate: text leaves, a leaf and a node domain, and an
    unpaired node that moves up unchanged. */
module GateManifest {
  import opened Bytes
  import opened Seqs
  import opened Int64
  import opened Decimals

  datatype Entry = Entry(path: bytes, size: nat, digest: Digest)

  /** "lin:gate:leaf:" and "lin:gate:node:" */
  const LEAF_DOM: bytes := [0x6C, 0x69, 0x6E, 0x3A, 0x67, 0x61, 0x74, 0x65, 0x3A, 0x6C, 0x65, 0x61, 0x66, 0x3A]
  const NODE_DOM: bytes := [0x6C, 0x69, 0x6E, 0x3A, 0x67, 0x61, 0x74, 0x65, 0x3A, 0x6E, 0x6F, 0x64, 0x65, 0x3A]
  const COLON: byte := 0x3A

  // ---------------------------------------------------------------- texts

  function HexDigit(v: nat): byte
    requires v < 16
  {
    if v < 10 then 0x30 + v else 0x57 + v
  }

  function Hex(b: bytes): (r: bytes)
    ensures |r| == 2 * |b|
  {
    if b == [] then [] else [HexDigit(b[0] / 16), HexDigit(b[0] % 16)] + Hex(b[1..])
  }

  lemma {:induction false} HexInjective(a: bytes, b: bytes)
    requires Hex(a) == Hex(b)
    ensures a == b
  {
    if a != [] {
      var x := [HexDigit(a[0] / 16), HexDigit(a[0] % 16)];
      var y := [HexDigit(b[0] / 16), HexDigit(b[0] % 16)];
      SplitConcat(x, Hex(a[1..]), y, Hex(b[1..]));
      assert x[0] == y[0] && x[1] == y[1];
      HexInjective(a[1..], b[1..]);
      HeadTail(a);
      HeadTail(b);
    }
  }

  function Front(e: Entry): bytes { e.path + ([COLON] + DigitsOf(e.size)) }

  function LeafInput(e: Entry): bytes
  {
    LEAF_DOM + (Front(e) + ([COLON] + Hex(e.digest)))
  }

  /** Texts are decoded from the right: the last colon is where the number begins, even if the
      path has colons of its own. */
  lemma LastColon(p: bytes, d: bytes, p': bytes, d': bytes)
    requires COLON !in d && COLON !in d' && p + ([COLON] + d) == p' + ([COLON] + d')
    ensures p == p' && d == d'
  {
    if |p| < |p'| {
      NoLaterColon(p, d, p', d');
    } else if |p| > |p'| {
      NoLaterColon(p', d', p, d);
    } else {
      SplitConcat(p, [COLON] + d, p', [COLON] + d');
      SplitConcat([COLON], d, [COLON], d');
    }
  }

  lemma NoLaterColon(p: bytes, d: bytes, p': bytes, d': bytes)
    requires COLON !in d && |p| < |p'|
    ensures p + ([COLON] + d) != p' + ([COLON] + d')
  {
    var a, b := p + ([COLON] + d), p' + ([COLON] + d');
    assert b[|p'|] == COLON;
    assert |p'| < |a| ==> a[|p'|] == d[|p'| - |p| - 1];
  }

  lemma LeafInjective(a: Entry, b: Entry)
    requires LeafInput(a) == LeafInput(b)
    ensures a == b
  {
    SplitConcat(LEAF_DOM, Front(a) + ([COLON] + Hex(a.digest)), LEAF_DOM, Front(b) + ([COLON] + Hex(b.digest)));
    assert |[COLON] + Hex(a.digest)| == 65 == |[COLON] + Hex(b.digest)|;
    SplitConcat(Front(a), [COLON] + Hex(a.digest), Front(b), [COLON] + Hex(b.digest));
    SplitConcat([COLON], Hex(a.digest), [COLON], Hex(b.digest));
    HexInjective(a.digest, b.digest);
    LastColon(a.path, DigitsOf(a.size), b.path, DigitsOf(b.size));
    DigitsInjective(a.size, b.size);
  }

  function NodeInput(l: Digest, r: Digest): bytes
  {
    NODE_DOM + (l + r)
  }

  lemma NodeInjective(l: Digest, r: Digest, l': Digest, r': Digest)
    requires NodeInput(l, r) == NodeInput(l', r')
    ensures l == l' && r == r'
  {
    var a: bytes := l;
    var b: bytes := l';
    SplitConcat(NODE_DOM, a + r, NODE_DOM, b + r');
    SplitConcat(a, r, b, r');
  }

  lemma DomainsApart(e: Entry, l: Digest, r: Digest)
    ensures LeafInput(e) != NodeInput(l, r)
  {
    assert LeafInput(e)[9] == 0x6C && NodeInput(l, r)[9] == 0x6E;
  }

  // ---------------------------------------------------------------- the root

  function LeafHash(h: Hash, e: Entry): Digest { h(LeafInput(e)) }

  function LeafHashes(h: Hash, es: seq<Entry>): (r: seq<Digest>)
    ensures |r| == |es|
  {
    seq(|es|, i requires 0 <= i < |es| => LeafHash(h, es[i]))
  }

  /** One level up: pairs are combined, an unpaired last node stays. */
  function PairUp(h: Hash, level: seq<Digest>): (r: seq<Digest>)
    ensures |r| == (|level| + 1) / 2
  {
    if |level| <= 1 then level else [h(NodeInput(level[0], level[1]))] + PairUp(h, level[2..])
  }

  function RootOf(h: Hash, level: seq<Digest>): Digest
    requires level != []
    decreases |level|
  {
    if |level| == 1 then level[0] else RootOf(h, PairUp(h, level))
  }

  method NextLevel(h: Hash, level: seq<Digest>) returns (next: seq<Digest>)
    ensures next == PairUp(h, level)
  {
    hide PairUp;
    next := [];
    var i := 0;
    assert level[0..] == level && [] + PairUp(h, level) == PairUp(h, level);
    while i < |level|
      invariant i % 2 == 0 && 0 <= i <= |level| + 1
      invariant i < |level| ==> next + PairUp(h, level[i..]) == PairUp(h, level)
      invariant i >= |level| ==> next == PairUp(h, level)
    {
      PairStep(h, level, i, next);
      if i + 1 < |level| {
        next := next + [h(NodeInput(level[i], level[i + 1]))];
      } else {
        next := next + [level[i]];
      }
      i := i + 2;
    }
    if |level| == 0 {
      NoLevel(h, level);
    }
  }

  lemma NoLevel(h: Hash, level: seq<Digest>)
    requires level == []
    ensures PairUp(h, level) == []
  {
  }

  lemma PairStep(h: Hash, level: seq<Digest>, i: nat, next: seq<Digest>)
    requires i < |level|
    ensures i + 1 == |level| ==> next + PairUp(h, level[i..]) == next + [level[i]]
    ensures i + 1 < |level| ==>
      && (i + 2 == |level| ==> next + PairUp(h, level[i..]) == next + [h(NodeInput(level[i], level[i + 1]))])
      && next + PairUp(h, level[i..]) == (next + [h(NodeInput(level[i], level[i + 1]))]) + PairUp(h, level[i + 2..])
  {
    hide NodeInput;
    var rest := level[i..];
    if i + 1 == |level| {
      assert rest == [level[i]];
    } else {
      assert rest[2..] == level[i + 2..];
      Regroup(next, [h(NodeInput(level[i], level[i + 1]))], PairUp(h, level[i + 2..]));
      if i + 2 == |level| {
        NoLevel(h, level[i + 2..]);
      }
    }
  }

  method ComputeRoot(h: Hash, leaves: seq<Digest>) returns (root: Digest)
    requires leaves != []
    ensures root == RootOf(h, leaves)
  {
    hide PairUp;
    var level := leaves;
    while |level| > 1
      invariant level != [] && RootOf(h, level) == RootOf(h, leaves)
    {
      level := NextLevel(h, level);
    }
    return level[0];
  }

  /** The number of levels is the least one whose full tree has room for the leaves. */
  method LevelsOf(n: nat) returns (lv: nat)
    ensures lv >= 1 && n <= Pow2(lv - 1)
    ensures n > 1 ==> lv >= 2 && n > Pow2(lv - 2)
  {
    lv := 1;
    var m := n;
    assert Pow2(0) == 1;
    while m > 1
      invariant lv >= 1 && (m <= 1 ==> n <= Pow2(lv - 1))
      invariant n > 0 ==> m > 0 && (m - 1) * Pow2(lv - 1) < n <= m * Pow2(lv - 1)
      invariant n > 1 && m <= 1 ==> lv >= 2 && n > Pow2(lv - 2)
      decreases m
    {
      HalvedUp(n, m, Pow2(lv - 1));
      m := (m + 1) / 2;
      lv := lv + 1;
    }
  }

  lemma HalvedUp(n: nat, m: nat, p: nat)
    requires m > 1 && (m - 1) * p < n <= m * p
    ensures ((m + 1) / 2 - 1) * (2 * p) < n <= ((m + 1) / 2) * (2 * p)
    ensures m >= 2 ==> n > p
  {
    var k := (m + 1) / 2;
    Twice(k, p);
    Twice(k - 1, p);
    MulMonotone(2 * (k - 1), m - 1, p);
    MulMonotone(m, 2 * k, p);
    MulMonotone(1, m - 1, p);
  }

  lemma Twice(k: int, p: int)
    ensures k * (2 * p) == (2 * k) * p
  {
  }

  // ---------------------------------------------------------------- the tree behind a root

  /** The shape that a run of the root computation builds; levels are forgotten, so a promoted
      node is the same tree one level up. */
  datatype Tree = Leaf(e: Entry) | Node(l: Tree, r: Tree)

  function Input(h: Hash, t: Tree): bytes
    decreases t, 0
  {
    match t
    case Leaf(e) => LeafInput(e)
    case Node(l, r) => NodeInput(TreeHash(h, l), TreeHash(h, r))
  }

  function TreeHash(h: Hash, t: Tree): Digest
    decreases t, 1
  {
    h(Input(h, t))
  }

  function Flat(t: Tree): seq<Entry>
  {
    match t
    case Leaf(e) => [e]
    case Node(l, r) => Flat(l) + Flat(r)
  }

  function FlatAll(ts: seq<Tree>): seq<Entry>
  {
    if ts == [] then [] else Flat(ts[0]) + FlatAll(ts[1..])
  }

  function PairTrees(ts: seq<Tree>): (r: seq<Tree>)
    ensures |r| == (|ts| + 1) / 2
  {
    if |ts| <= 1 then ts else [Node(ts[0], ts[1])] + PairTrees(ts[2..])
  }

  function TopTree(ts: seq<Tree>): Tree
    requires ts != []
    decreases |ts|
  {
    if |ts| == 1 then ts[0] else TopTree(PairTrees(ts))
  }

  function LeafTrees(es: seq<Entry>): (r: seq<Tree>)
    ensures |r| == |es|
  {
    seq(|es|, i requires 0 <= i < |es| => Leaf(es[i]))
  }

  function Hashes(h: Hash, ts: seq<Tree>): (r: seq<Digest>)
    ensures |r| == |ts|
  {
    seq(|ts|, i requires 0 <= i < |ts| => TreeHash(h, ts[i]))
  }

  lemma {:induction false} PairingKeepsEntries(ts: seq<Tree>)
    ensures FlatAll(PairTrees(ts)) == FlatAll(ts)
  {
    if |ts| > 1 {
      PairingKeepsEntries(ts[2..]);
      assert ts[1..][1..] == ts[2..];
      Regroup(Flat(ts[0]), Flat(ts[1]), FlatAll(ts[2..]));
    }
  }

  lemma {:induction false} TopKeepsEntries(ts: seq<Tree>)
    requires ts != []
    ensures Flat(TopTree(ts)) == FlatAll(ts)
    decreases |ts|
  {
    if |ts| == 1 {
      assert FlatAll(ts[1..]) == [];
    } else {
      PairingKeepsEntries(ts);
      TopKeepsEntries(PairTrees(ts));
    }
  }

  lemma {:induction false} LeavesFlat(es: seq<Entry>)
    ensures FlatAll(LeafTrees(es)) == es
  {
    if es != [] {
      assert LeafTrees(es)[1..] == LeafTrees(es[1..]);
      LeavesFlat(es[1..]);
      HeadTail(es);
    }
  }

  lemma {:induction false} PairingHashes(h: Hash, ts: seq<Tree>)
    ensures Hashes(h, PairTrees(ts)) == PairUp(h, Hashes(h, ts))
  {
    hide NodeInput, LeafInput;
    if |ts| > 1 {
      PairingHashes(h, ts[2..]);
      assert Hashes(h, ts)[2..] == Hashes(h, ts[2..]);
      assert TreeHash(h, Node(ts[0], ts[1])) == h(NodeInput(TreeHash(h, ts[0]), TreeHash(h, ts[1])));
    }
  }

  lemma {:induction false} TopHash(h: Hash, ts: seq<Tree>)
    requires ts != []
    ensures TreeHash(h, TopTree(ts)) == RootOf(h, Hashes(h, ts))
    decreases |ts|
  {
    hide TreeHash;
    if |ts| > 1 {
      PairingHashes(h, ts);
      TopHash(h, PairTrees(ts));
    }
  }

  // ---------------------------------------------------------------- binding

  ghost function Inputs(h: Hash, t: Tree): set<bytes>
  {
    match t
    case Leaf(e) => {LeafInput(e)}
    case Node(l, r) => {Input(h, t)} + Inputs(h, l) + Inputs(h, r)
  }

  lemma InputHashed(h: Hash, t: Tree)
    ensures Input(h, t) in Inputs(h, t)
  {
  }

  lemma {:induction false} TreeBinding(h: Hash, a: Tree, b: Tree, all: set<bytes>)
    requires TreeHash(h, a) == TreeHash(h, b)
    requires Inputs(h, a) <= all && Inputs(h, b) <= all && !CollisionIn(h, all)
    ensures a == b
  {
    hide CollisionIn, LeafInput, NodeInput;
    InputHashed(h, a);
    InputHashed(h, b);
    Separated(h, all, Input(h, a), Input(h, b));
    if a.Leaf? && b.Leaf? {
      LeafInjective(a.e, b.e);
    } else if a.Node? && b.Node? {
      NodeInjective(TreeHash(h, a.l), TreeHash(h, a.r), TreeHash(h, b.l), TreeHash(h, b.r));
      TreeBinding(h, a.l, b.l, all);
      TreeBinding(h, a.r, b.r, all);
    } else if a.Leaf? {
      DomainsApart(a.e, TreeHash(h, b.l), TreeHash(h, b.r));
    } else {
      DomainsApart(b.e, TreeHash(h, a.l), TreeHash(h, a.r));
    }
  }

  /** Two non-empty lists of files, of any lengths, with one root have the same paths, sizes and
      digests in the same order, or computing the two roots hashed two strings to one digest. */
  lemma ManifestBinding(h: Hash, a: seq<Entry>, b: seq<Entry>)
    requires a != [] && b != [] && RootOf(h, LeafHashes(h, a)) == RootOf(h, LeafHashes(h, b))
    ensures a == b || CollisionIn(h, Inputs(h, TopTree(LeafTrees(a))) + Inputs(h, TopTree(LeafTrees(b))))
  {
    var s, t := TopTree(LeafTrees(a)), TopTree(LeafTrees(b));
    var all := Inputs(h, s) + Inputs(h, t);
    RootIsTree(h, a);
    RootIsTree(h, b);
    if !CollisionIn(h, all) {
      TreeBinding(h, s, t, all);
    }
  }

  /** The root is the hash of a tree that still holds all entries in order. */
  lemma RootIsTree(h: Hash, es: seq<Entry>)
    requires es != []
    ensures var t := TopTree(LeafTrees(es)); TreeHash(h, t) == RootOf(h, LeafHashes(h, es)) && Flat(t) == es
  {
    hide LeafInput;
    TopHash(h, LeafTrees(es));
    forall i | 0 <= i < |es| ensures Hashes(h, LeafTrees(es))[i] == LeafHashes(h, es)[i] {
      assert Input(h, Leaf(es[i])) == LeafInput(es[i]);
    }
    assert Hashes(h, LeafTrees(es)) == LeafHashes(h, es);
    TopKeepsEntries(LeafTrees(es));
    LeavesFlat(es);
  }
}
