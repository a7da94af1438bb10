/** Hash trees by the position of their nodes: what the roots computed level by level have to be. */
module HashTrees {
  import opened Bytes
  import Int64

  /** What becomes of a last node without a neighbour: it moves up, or is combined with itself. */
  datatype Unpaired = Promoted | Doubled

  type Combine = (Digest, Digest) -> Digest

  /** The number of nodes `j` levels above `n` leaves. */
  function Count(n: nat, j: nat): nat
  {
    if j == 0 then n else (Count(n, j - 1) + 1) / 2
  }

  /** How many levels lie above `n` leaves. */
  function Height(n: nat): nat
  {
    if n <= 1 then 0 else 1 + Height((n + 1) / 2)
  }

  /** Node `i` of level `j`, over the nodes 2i and 2i + 1 of the level below. */
  function NodeAt(f: Combine, u: Unpaired, leaves: seq<Digest>, j: nat, i: nat): Digest
    requires i < Count(|leaves|, j)
    decreases j
  {
    if j == 0 then leaves[i]
    else if 2 * i + 1 < Count(|leaves|, j - 1)
    then f(NodeAt(f, u, leaves, j - 1, 2 * i), NodeAt(f, u, leaves, j - 1, 2 * i + 1))
    else
      var last := NodeAt(f, u, leaves, j - 1, 2 * i);
      if u.Doubled? then f(last, last) else last
  }

  /** The one node of the highest level. */
  ghost predicate IsRoot(f: Combine, u: Unpaired, leaves: seq<Digest>, root: Digest)
  {
    Count(|leaves|, Height(|leaves|)) == 1 && root == NodeAt(f, u, leaves, Height(|leaves|), 0)
  }

  /** A level is the one above another. */
  ghost predicate IsAbove(f: Combine, u: Unpaired, level: seq<Digest>, up: seq<Digest>)
  {
    && |up| == (|level| + 1) / 2
    && forall i :: 0 <= i < |up| ==> up[i] == Over(f, u, level, i)
  }

  function Over(f: Combine, u: Unpaired, level: seq<Digest>, i: nat): Digest
    requires 2 * i < |level|
  {
    if 2 * i + 1 < |level| then f(level[2 * i], level[2 * i + 1])
    else if u.Doubled? then f(level[2 * i], level[2 * i]) else level[2 * i]
  }

  lemma NodeStep(f: Combine, u: Unpaired, leaves: seq<Digest>, j: nat, i: nat)
    requires j > 0 && i < Count(|leaves|, j)
    ensures var n := Count(|leaves|, j - 1);
            && 2 * i < n
            && NodeAt(f, u, leaves, j, i) ==
                 (if 2 * i + 1 < n
                  then f(NodeAt(f, u, leaves, j - 1, 2 * i), NodeAt(f, u, leaves, j - 1, 2 * i + 1))
                  else var last := NodeAt(f, u, leaves, j - 1, 2 * i); if u.Doubled? then f(last, last) else last)
  {
  }

  lemma {:induction false} CountUp(n: nat, j: nat)
    ensures Count((n + 1) / 2, j) == Count(n, j + 1)
  {
    if j > 0 { CountUp(n, j - 1); }
  }

  lemma CountZero(n: nat)
    ensures Count(n, 0) == n
  {
  }

  /** Going up one level before or after. */
  lemma {:induction false} NodeUp(f: Combine, u: Unpaired, level: seq<Digest>, up: seq<Digest>, j: nat, i: nat)
    requires IsAbove(f, u, level, up) && i < Count(|up|, j)
    ensures i < Count(|level|, j + 1)
    ensures NodeAt(f, u, up, j, i) == NodeAt(f, u, level, j + 1, i)
    decreases j
  {
    hide NodeAt, Count, IsAbove;
    LevelAbove(f, u, level, up);
    CountUp(|level|, j);
    if j == 0 {
      CountZero(|up|);
      OneUp(f, u, level, up, i);
    } else {
      CountUp(|level|, j - 1);
      NodeStep(f, u, up, j, i);
      NodeUp(f, u, level, up, j - 1, 2 * i);
      if 2 * i + 1 < Count(|up|, j - 1) { NodeUp(f, u, level, up, j - 1, 2 * i + 1); }
      NodeStep(f, u, level, j + 1, i);
    }
  }

  lemma LevelAbove(f: Combine, u: Unpaired, level: seq<Digest>, up: seq<Digest>)
    requires IsAbove(f, u, level, up)
    ensures |up| == (|level| + 1) / 2
  {
  }

  lemma OneUp(f: Combine, u: Unpaired, level: seq<Digest>, up: seq<Digest>, i: nat)
    requires IsAbove(f, u, level, up) && i < |up|
    ensures i < Count(|level|, 1) && Count(|up|, 0) == |up|
    ensures NodeAt(f, u, up, 0, i) == NodeAt(f, u, level, 1, i)
  {
    assert Count(|level|, 0) == |level|;
    assert NodeAt(f, u, level, 0, 2 * i) == level[2 * i];
    if 2 * i + 1 < |level| { assert NodeAt(f, u, level, 0, 2 * i + 1) == level[2 * i + 1]; }
    NodeStep(f, u, level, 1, i);
  }

  /** A level of one node has it for its root, and any other level that of the level above it. */
  lemma RootAbove(f: Combine, u: Unpaired, level: seq<Digest>, up: seq<Digest>, root: Digest)
    requires |level| > 1 && IsAbove(f, u, level, up) && IsRoot(f, u, up, root)
    ensures IsRoot(f, u, level, root)
  {
    hide NodeAt, Count;
    CountUp(|level|, Height(|up|));
    NodeUp(f, u, level, up, Height(|up|), 0);
  }

  lemma RootAlone(f: Combine, u: Unpaired, root: Digest)
    ensures IsRoot(f, u, [root], root)
  {
  }

  /** The height is the least number of doublings that reaches the leaves. */
  lemma {:induction false} HeightLeast(n: nat, j: nat)
    requires n >= 1
    ensures Height(n) <= j <==> n <= Int64.Pow2(j)
    decreases n, j
  {
    if n > 1 && j > 0 { HeightLeast((n + 1) / 2, j - 1); }
  }
}
