/** The canonical Merkle root of the store: prefixed leaves and nodes, and a last node
    that is paired with itself on odd levels. */
module StoreMerkle {
  import opened Bytes
  import opened Seqs
  import opened MemTable
  import opened HashTrees

  const EMPTY_TAG: bytes := [0x53, 0x54, 0x52, 0x5f, 0x45, 0x4d, 0x50, 0x54, 0x59, 0x5f, 0x76, 0x31]  // "STR_EMPTY_v1"

  /** Two length-prefixed fields, with prefixes of the given widths. */
  function Fields(e: Entry, kw: nat, vw: nat): bytes
  {
    LE(|e.key|, kw) + (e.key + (LE(|e.val|, vw) + e.val))
  }

  /** What is hashed for one key/value pair. */
  function LeafInput(e: Entry): bytes
  {
    [0] + Fields(e, 2, 4)
  }

  /** What is hashed for an inner node. */
  function NodeInput(l: Digest, r: Digest): bytes
  {
    [1] + l + r
  }

  /** Lengths fit their fixed-width fields. */
  ghost predicate FitsFields(es: seq<Entry>)
  {
    forall i :: 0 <= i < |es| ==> |es[i].key| < 0x1_0000 && |es[i].val| < 0x1_0000_0000
  }

  ghost predicate TableFits(m: Table)
  {
    forall k :: k in m ==> |k| < 0x1_0000 && |m[k]| < 0x1_0000_0000
  }

  // ---------------------------------------------------------------- levels

  /** The hash inputs of a level, given the hash inputs of the level below. */
  function Parents(h: Hash, level: seq<bytes>): (r: seq<bytes>)
    ensures |r| == (|level| + 1) / 2
  {
    seq((|level| + 1) / 2, i requires 0 <= i < (|level| + 1) / 2 =>
      NodeInput(h(level[2 * i]), h(level[if 2 * i + 1 < |level| then 2 * i + 1 else 2 * i])))
  }

  /** The hash input of the root above a level. */
  function Top(h: Hash, level: seq<bytes>): bytes
    requires level != []
    decreases |level|
  {
    if |level| == 1 then level[0] else Top(h, Parents(h, level))
  }

  function LeafInputs(es: seq<Entry>): seq<bytes>
  {
    seq(|es|, i requires 0 <= i < |es| => LeafInput(es[i]))
  }

  /** The root commitment of a sorted table. */
  function RootOf(h: Hash, es: seq<Entry>): Digest
  {
    if es == [] then h(EMPTY_TAG) else h(Top(h, LeafInputs(es)))
  }

  ghost function Elements(level: seq<bytes>): set<bytes>
  {
    set i | 0 <= i < |level| :: level[i]
  }

  /** Every string hashed on the way from a level to its root. */
  ghost function Hashed(h: Hash, level: seq<bytes>): set<bytes>
    requires level != []
    decreases |level|
  {
    if |level| == 1 then Elements(level) else Elements(level) + Hashed(h, Parents(h, level))
  }

  ghost function RootInputs(h: Hash, es: seq<Entry>): set<bytes>
  {
    if es == [] then {EMPTY_TAG} else Hashed(h, LeafInputs(es))
  }

  // ---------------------------------------------------------------- injectivity

  lemma FieldsInjective(a: Entry, b: Entry, kw: nat, vw: nat)
    requires |a.key| < Pow256(kw) && |b.key| < Pow256(kw) && |a.val| < Pow256(vw) && |b.val| < Pow256(vw)
    requires Fields(a, kw, vw) == Fields(b, kw, vw)
    ensures a == b
  {
    SplitConcat(LE(|a.key|, kw), a.key + (LE(|a.val|, vw) + a.val), LE(|b.key|, kw), b.key + (LE(|b.val|, vw) + b.val));
    LEInjective(|a.key|, |b.key|, kw);
    SplitConcat(a.key, LE(|a.val|, vw) + a.val, b.key, LE(|b.val|, vw) + b.val);
    SplitConcat(LE(|a.val|, vw), a.val, LE(|b.val|, vw), b.val);
  }

  lemma LeafInjective(a: Entry, b: Entry)
    requires FitsFields([a]) && FitsFields([b])
    requires LeafInput(a) == LeafInput(b)
    ensures a == b
  {
    SmallPowers();
    assert [a][0] == a && [b][0] == b;
    SplitConcat([0], Fields(a, 2, 4), [0], Fields(b, 2, 4));
    FieldsInjective(a, b, 2, 4);
  }

  lemma NodeInjective(l: Digest, r: Digest, l': Digest, r': Digest)
    requires NodeInput(l, r) == NodeInput(l', r')
    ensures l == l' && r == r'
  {
    assert NodeInput(l, r)[1..33] == l && NodeInput(l', r')[1..33] == l';
    assert NodeInput(l, r)[33..] == r && NodeInput(l', r')[33..] == r';
  }

  // ---------------------------------------------------------------- binding

  ghost predicate Distinct(level: seq<bytes>)
  {
    forall i, j :: 0 <= i < j < |level| ==> level[i] != level[j]
  }

  /** Two levels whose members are told apart by their digests have distinct parents. */
  lemma ParentsDistinct(h: Hash, level: seq<bytes>, all: set<bytes>)
    requires Distinct(level) && Elements(level) <= all && !CollisionIn(h, all)
    ensures Distinct(Parents(h, level))
  {
    hide CollisionIn;
    var up := Parents(h, level);
    forall i, j | 0 <= i < j < |up| ensures up[i] != up[j] {
      var a, b := level[2 * i], level[2 * j];
      assert a in Elements(level) && b in Elements(level);
      Separated(h, all, a, b);
      if up[i] == up[j] {
        ParentInput(h, level, i);
        ParentInput(h, level, j);
      }
    }
  }

  /** The digest of the first child can be read off the input of a node. */
  lemma ParentInput(h: Hash, level: seq<bytes>, i: nat)
    requires i < (|level| + 1) / 2
    ensures |Parents(h, level)[i]| == 65 && Parents(h, level)[i][1..33] == h(level[2 * i])
  {
    var r := h(level[if 2 * i + 1 < |level| then 2 * i + 1 else 2 * i]);
    NodeParts(h(level[2 * i]), r);
  }

  lemma NodeParts(l: Digest, r: Digest)
    ensures |NodeInput(l, r)| == 65 && NodeInput(l, r)[1..33] == l
  {
  }

  /** Without a collision a level is recovered from its parents.  The self-paired last
      node cannot be mistaken for a pair, because a level never repeats a member. */
  lemma ParentsInjective(h: Hash, a: seq<bytes>, b: seq<bytes>, all: set<bytes>)
    requires Distinct(a) && Distinct(b) && Elements(a) <= all && Elements(b) <= all
    requires !CollisionIn(h, all)
    requires Parents(h, a) == Parents(h, b)
    ensures a == b
  {
    var n := |Parents(h, a)|;
    assert n == |Parents(h, b)|;
    forall i | 0 <= i < n
      ensures a[2 * i] == b[2 * i]
      ensures 2 * i + 1 < |a| <==> 2 * i + 1 < |b|
      ensures 2 * i + 1 < |a| ==> a[2 * i + 1] == b[2 * i + 1]
    {
      PairInjective(h, a, b, all, i);
    }
    assert |a| == |b| by {
      if n > 0 { assert 2 * (n - 1) + 1 < |a| <==> 2 * (n - 1) + 1 < |b|; }
    }
    forall i | 0 <= i < |a| ensures a[i] == b[i] {
      var p := i / 2;
      assert i == 2 * p || i == 2 * p + 1;
    }
  }

  lemma PairInjective(h: Hash, a: seq<bytes>, b: seq<bytes>, all: set<bytes>, i: nat)
    requires Distinct(a) && Distinct(b) && Elements(a) <= all && Elements(b) <= all
    requires !CollisionIn(h, all)
    requires i < (|a| + 1) / 2 && i < (|b| + 1) / 2 && Parents(h, a)[i] == Parents(h, b)[i]
    ensures a[2 * i] == b[2 * i]
    ensures 2 * i + 1 < |a| <==> 2 * i + 1 < |b|
    ensures 2 * i + 1 < |a| ==> a[2 * i + 1] == b[2 * i + 1]
  {
    var ra := if 2 * i + 1 < |a| then 2 * i + 1 else 2 * i;
    var rb := if 2 * i + 1 < |b| then 2 * i + 1 else 2 * i;
    NodeInjective(h(a[2 * i]), h(a[ra]), h(b[2 * i]), h(b[rb]));
    assert a[2 * i] in Elements(a) && a[ra] in Elements(a);
    assert b[2 * i] in Elements(b) && b[rb] in Elements(b);
    Separated(h, all, a[2 * i], b[2 * i]);
    Separated(h, all, a[ra], b[rb]);
  }

  lemma {:induction false} SameHeightBinding(h: Hash, a: seq<bytes>, b: seq<bytes>, all: set<bytes>)
    requires a != [] && b != [] && Height(|a|) == Height(|b|)
    requires Distinct(a) && Distinct(b)
    requires Hashed(h, a) <= all && Hashed(h, b) <= all && !CollisionIn(h, all)
    requires h(Top(h, a)) == h(Top(h, b))
    ensures a == b
    decreases |a|
  {
    if |a| == 1 {
      assert a[0] in Elements(a) && b[0] in Elements(b);
      Separated(h, all, a[0], b[0]);
    } else {
      ParentsDistinct(h, a, all);
      ParentsDistinct(h, b, all);
      SameHeightBinding(h, Parents(h, a), Parents(h, b), all);
      ParentsInjective(h, a, b, all);
    }
  }

  /** The leftmost hash input `down` steps below the top of a level's tree. */
  function LeftSpine(h: Hash, level: seq<bytes>, down: nat): bytes
    requires level != [] && down <= Height(|level|)
    decreases |level|
  {
    if |level| == 1 || down == Height(|level|) then level[0]
    else LeftSpine(h, Parents(h, level), down)
  }

  lemma {:induction false} SpineTop(h: Hash, level: seq<bytes>)
    requires level != []
    ensures LeftSpine(h, level, 0) == Top(h, level)
    decreases |level|
  {
    if |level| > 1 { SpineTop(h, Parents(h, level)); }
  }

  lemma {:induction false} SpineHashed(h: Hash, level: seq<bytes>, down: nat)
    requires level != [] && down <= Height(|level|)
    ensures LeftSpine(h, level, down) in Hashed(h, level)
    decreases |level|
  {
    assert level[0] in Elements(level);
    if |level| > 1 && down < Height(|level|) { SpineHashed(h, Parents(h, level), down); }
  }

  /** Each step down the left spine is the left child of the step above. */
  lemma {:induction false} SpineStep(h: Hash, level: seq<bytes>, down: nat) returns (right: Digest)
    requires level != [] && down < Height(|level|)
    ensures LeftSpine(h, level, down) == NodeInput(h(LeftSpine(h, level, down + 1)), right)
    decreases |level|
  {
    var up := Parents(h, level);
    if down + 1 == Height(|level|) {
      right := h(level[1]);
      assert LeftSpine(h, level, down) == up[0];
    } else {
      right := SpineStep(h, up, down);
    }
  }

  lemma {:induction false} SpinesAgree(h: Hash, a: seq<bytes>, b: seq<bytes>, down: nat, all: set<bytes>)
    requires a != [] && b != [] && down <= Height(|a|) && down <= Height(|b|)
    requires Hashed(h, a) <= all && Hashed(h, b) <= all && !CollisionIn(h, all)
    requires h(Top(h, a)) == h(Top(h, b))
    ensures LeftSpine(h, a, down) == LeftSpine(h, b, down)
  {
    hide CollisionIn, Hashed, Top;
    SpineHashed(h, a, down);
    SpineHashed(h, b, down);
    var x, y := LeftSpine(h, a, down), LeftSpine(h, b, down);
    assert h(x) == h(y) by {
      if down == 0 {
        SpineTop(h, a);
        SpineTop(h, b);
      } else {
        SpinesAgree(h, a, b, down - 1, all);
        var r := SpineStep(h, a, down - 1);
        var r' := SpineStep(h, b, down - 1);
        NodeInjective(h(x), r, h(y), r');
      }
    }
    Separated(h, all, x, y);
  }

  /** Trees of different heights never share a root: a leaf would be a node. */
  lemma HeightBinding(h: Hash, a: seq<bytes>, b: seq<bytes>, all: set<bytes>)
    requires a != [] && b != [] && Height(|a|) < Height(|b|)
    requires a[0] != [] && a[0][0] == 0
    requires Hashed(h, a) <= all && Hashed(h, b) <= all && !CollisionIn(h, all)
    ensures h(Top(h, a)) != h(Top(h, b))
  {
    var d := Height(|a|);
    var r := SpineStep(h, b, d);
    assert LeftSpine(h, a, d) != LeftSpine(h, b, d);
    if h(Top(h, a)) == h(Top(h, b)) {
      SpinesAgree(h, a, b, d, all);
    }
  }

  lemma {:induction false} TopFirstByte(h: Hash, level: seq<bytes>)
    requires level != []
    requires forall i :: 0 <= i < |level| ==> level[i] != [] && level[i][0] in {0, 1}
    ensures Top(h, level) in Hashed(h, level)
    ensures Top(h, level) != [] && Top(h, level)[0] in {0, 1}
    decreases |level|
  {
    if |level| == 1 {
      assert level[0] in Elements(level);
    } else {
      TopFirstByte(h, Parents(h, level));
    }
  }

  lemma LeavesDistinct(es: seq<Entry>)
    requires Sorted(es) && FitsFields(es)
    ensures Distinct(LeafInputs(es))
  {
    forall i, j | 0 <= i < j < |es| ensures LeafInputs(es)[i] != LeafInputs(es)[j] {
      if LeafInput(es[i]) == LeafInput(es[j]) {
        LeafInjective(es[i], es[j]);
        DistinctKeys(es, i, j);
      }
    }
  }

  /** The root binds the whole table: sorted tables of any sizes with one root are equal,
      or two of the strings hashed for these two roots collide. */
  lemma RootBinding(h: Hash, a: seq<Entry>, b: seq<Entry>)
    requires Sorted(a) && Sorted(b) && FitsFields(a) && FitsFields(b)
    requires RootOf(h, a) == RootOf(h, b)
    ensures a == b || CollisionIn(h, RootInputs(h, a) + RootInputs(h, b))
  {
    var all := RootInputs(h, a) + RootInputs(h, b);
    if !CollisionIn(h, all) && a != b {
      if a == [] {
        EmptyBinding(h, b, all);
      } else if b == [] {
        EmptyBinding(h, a, all);
      } else {
        NonEmptyBinding(h, a, b, all);
      }
    }
  }

  lemma EmptyBinding(h: Hash, es: seq<Entry>, all: set<bytes>)
    requires es != [] && RootInputs(h, es) <= all && EMPTY_TAG in all && !CollisionIn(h, all)
    ensures RootOf(h, es) != h(EMPTY_TAG)
  {
    TopFirstByte(h, LeafInputs(es));
    Separated(h, all, Top(h, LeafInputs(es)), EMPTY_TAG);
  }

  lemma NonEmptyBinding(h: Hash, a: seq<Entry>, b: seq<Entry>, all: set<bytes>)
    requires Sorted(a) && Sorted(b) && FitsFields(a) && FitsFields(b) && a != [] && b != []
    requires RootInputs(h, a) <= all && RootInputs(h, b) <= all && !CollisionIn(h, all)
    requires RootOf(h, a) == RootOf(h, b)
    ensures a == b
  {
    var la, lb := LeafInputs(a), LeafInputs(b);
    if Height(|la|) < Height(|lb|) {
      HeightBinding(h, la, lb, all);
    } else if Height(|lb|) < Height(|la|) {
      HeightBinding(h, lb, la, all);
    } else {
      LeavesDistinct(a);
      LeavesDistinct(b);
      SameHeightBinding(h, la, lb, all);
      forall i | 0 <= i < |a| ensures a[i] == b[i] {
        assert la[i] == LeafInput(a[i]) && lb[i] == LeafInput(b[i]);
        LeafInjective(a[i], b[i]);
      }
    }
  }

  /** The root of a map does not depend on how the map was reached. */
  ghost function MapRoot(h: Hash, m: Table): Digest
  {
    RootOf(h, SortedEntries(m))
  }

  lemma RootOfContents(h: Hash, es: seq<Entry>)
    requires Sorted(es)
    ensures RootOf(h, es) == MapRoot(h, Contents(es))
  {
    CanonicalForm(es, SortedEntries(Contents(es)));
  }

  lemma EntriesFit(es: seq<Entry>)
    requires Sorted(es) && TableFits(Contents(es))
    ensures FitsFields(es)
  {
    forall i | 0 <= i < |es| ensures |es[i].key| < 0x1_0000 && |es[i].val| < 0x1_0000_0000 {
      ContentsAt(es, i);
    }
  }

  /** Binding stated for key/value maps: equal roots mean equal maps, or a collision among
      the strings hashed for the two roots. */
  lemma MapRootBinding(h: Hash, m: Table, m': Table)
    requires TableFits(m) && TableFits(m')
    requires MapRoot(h, m) == MapRoot(h, m')
    ensures m == m' || CollisionIn(h, RootInputs(h, SortedEntries(m)) + RootInputs(h, SortedEntries(m')))
  {
    EntriesFit(SortedEntries(m));
    EntriesFit(SortedEntries(m'));
    RootBinding(h, SortedEntries(m), SortedEntries(m'));
  }

  // ---------------------------------------------------------------- the root, node by node

  function Digests(h: Hash, level: seq<bytes>): (r: seq<Digest>)
    ensures |r| == |level|
  {
    seq(|level|, i requires 0 <= i < |level| => h(level[i]))
  }

  /** The digest of a node: a 1 byte, then its two children. */
  function NodeDigest(h: Hash): Combine
  {
    (l: Digest, r: Digest) => h([1] + l + r)
  }

  lemma ParentsAbove(h: Hash, level: seq<bytes>)
    ensures IsAbove(NodeDigest(h), Doubled, Digests(h, level), Digests(h, Parents(h, level)))
  {
  }

  lemma {:induction false} TopIsRoot(h: Hash, level: seq<bytes>)
    requires level != []
    ensures IsRoot(NodeDigest(h), Doubled, Digests(h, level), h(Top(h, level)))
    decreases |level|
  {
    hide NodeDigest, IsAbove, IsRoot;
    if |level| == 1 {
      assert Digests(h, level) == [h(level[0])];
      RootAlone(NodeDigest(h), Doubled, h(level[0]));
    } else {
      var up := Parents(h, level);
      TopIsRoot(h, up);
      ParentsAbove(h, level);
      RootAbove(NodeDigest(h), Doubled, Digests(h, level), Digests(h, up), h(Top(h, up)));
    }
  }

  /** The digest of an entry: a 0 byte, then key and value, each behind its length. */
  function LeafDigest(h: Hash, e: Entry): Digest
  {
    h([0] + (LE(|e.key|, 2) + (e.key + (LE(|e.val|, 4) + e.val))))
  }

  /** The root of a map, spelled out: the bindings in the order of the bytes of their keys give the
      leaves, and the root is the one node of the level above them all. */
  lemma MapRootSpelled(h: Hash, m: Table, es: seq<Entry>)
    requires Lists(es, m)
    ensures es == [] <==> m == map[]
    ensures es == [] ==> MapRoot(h, m) == h(EMPTY_TAG)
    ensures es != [] ==>
              var leaves := seq(|es|, i requires 0 <= i < |es| => LeafDigest(h, es[i]));
              IsRoot(NodeDigest(h), Doubled, leaves, MapRoot(h, m))
  {
    hide Top, Before, Sorted, LeafInputs, Digests, LeafDigest, MapRoot, IsRoot;
    ListsSorted(es, m);
    RootOfContents(h, es);
    if es != [] {
      assert es[0] in es;
      LeavesSpelled(h, es);
      TopIsRoot(h, LeafInputs(es));
    }
  }

  lemma LeavesSpelled(h: Hash, es: seq<Entry>)
    ensures |LeafInputs(es)| == |es|
    ensures Digests(h, LeafInputs(es)) == seq(|es|, i requires 0 <= i < |es| => LeafDigest(h, es[i]))
  {
  }

  // ---------------------------------------------------------------- the level loop

  /** The level reduction loop of the store, one digest buffer per level. */
  method ComputeRoot(h: Hash, es: seq<Entry>) returns (root: Digest)
    ensures root == RootOf(h, es)
  {
    if |es| == 0 {
      return h(EMPTY_TAG);
    }
    var level: seq<Digest> := [];
    for i := 0 to |es|
      invariant |level| == i
      invariant forall j :: 0 <= j < i ==> level[j] == h(LeafInput(es[j]))
    {
      level := level + [h(LeafInput(es[i]))];
    }
    ghost var inputs := LeafInputs(es);
    while |level| > 1
      invariant inputs != [] && |inputs| == |level|
      invariant forall j :: 0 <= j < |level| ==> level[j] == h(inputs[j])
      invariant Top(h, inputs) == Top(h, LeafInputs(es))
      decreases |level|
    {
      var count := |level|;
      var next: seq<Digest> := [];
      var i := 0;
      ghost var up := Parents(h, inputs);
      while i < count
        invariant 0 <= i <= count + 1 && i % 2 == 0
        invariant |next| == i / 2
        invariant forall j :: 0 <= j < |next| ==> next[j] == h(up[j])
      {
        var right := if i + 1 < count then i + 1 else i;
        next := next + [h(NodeInput(level[i], level[right]))];
        i := i + 2;
      }
      assert |next| == |up|;
      level, inputs := next, up;
    }
    return level[0];
  }
}
