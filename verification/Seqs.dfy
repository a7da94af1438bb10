/** Small facts about concatenation and slicing, stated once so that larger proofs need not
    rediscover them. */
module Seqs {

  lemma Regroup<T>(a: seq<T>, b: seq<T>, c: seq<T>)
    ensures (a + b) + c == a + (b + c)
  {
  }

  lemma HeadTail<T>(s: seq<T>)
    requires s != []
    ensures s == [s[0]] + s[1..]
  {
  }

  lemma AppendTail<T>(a: seq<T>, b: seq<T>)
    requires a != []
    ensures (a + b)[0] == a[0] && (a + b)[1..] == a[1..] + b
  {
  }

  lemma SnocParts<T>(s: seq<T>, x: T)
    ensures (s + [x])[..|s|] == s && (s + [x])[|s|] == x
  {
  }

  lemma TakeSnoc<T>(s: seq<T>, i: nat)
    requires i < |s|
    ensures s[..i + 1] == s[..i] + [s[i]]
  {
  }

  lemma TakeDrop<T>(s: seq<T>, i: nat)
    requires i <= |s|
    ensures s == s[..i] + s[i..]
  {
  }

  lemma ConcatParts<T>(a: seq<T>, b: seq<T>)
    ensures (a + b)[..|a|] == a && (a + b)[|a|..] == b
  {
  }

  /** Concatenations with equally long heads split in one way. */
  lemma SplitConcat<T>(a: seq<T>, b: seq<T>, c: seq<T>, d: seq<T>)
    requires |a| == |c| && a + b == c + d
    ensures a == c && b == d
  {
    ConcatParts(a, b);
    ConcatParts(c, d);
  }

  /** A prefix of a suffix is a slice. */
  lemma PrefixIsSlice<T>(f: seq<T>, d: seq<T>, off: nat)
    requires off <= |d|
    ensures f <= d[off..] <==> off + |f| <= |d| && d[off..off + |f|] == f
  {
    if f <= d[off..] {
      assert d[off..off + |f|] == d[off..][..|f|];
    }
    if off + |f| <= |d| && d[off..off + |f|] == f {
      assert d[off..][..|f|] == f;
    }
  }

  /** Adjacent slices join. */
  lemma JoinSlices<T>(d: seq<T>, i: nat, j: nat, k: nat)
    requires i <= j <= k <= |d|
    ensures d[i..k] == d[i..j] + d[j..k]
  {
  }

  /** Slices of slices are slices. */
  lemma SubSlice<T>(d: seq<T>, i: nat, j: nat, a: nat, b: nat)
    requires i <= j <= |d| && a <= b <= j - i
    ensures d[i..j][a..b] == d[i + a..i + b]
  {
    var s := d[i..j];
    assert forall k :: 0 <= k < b - a ==> s[a..b][k] == s[a + k] == d[i + a..i + b][k];
  }

  /** A prefix cut at four places. */
  lemma FiveParts<T>(s: seq<T>, i: nat, j: nat, k: nat, l: nat, n: nat)
    requires i <= j <= k <= l <= n <= |s|
    ensures s[..n] == s[..i] + (s[i..j] + (s[j..k] + (s[k..l] + s[l..n])))
  {
    JoinSlices(s, k, l, n);
    JoinSlices(s, j, k, n);
    JoinSlices(s, i, j, n);
    JoinSlices(s, 0, i, n);
  }

  /** The fields of a concatenation, read back by position, whatever follows. */
  lemma FourFields<T>(a: seq<T>, b: seq<T>, c: seq<T>, d: seq<T>, rest: seq<T>)
    ensures var s := a + (b + (c + d)) + rest;
            && s[..|a|] == a && s[|a|..|a| + |b|] == b
            && s[|a| + |b|..|a| + |b| + |c|] == c
            && s[|a| + |b| + |c|..|a| + |b| + |c| + |d|] == d
  {
  }

  lemma RegroupThree<T>(a: seq<T>, b: seq<T>, c: seq<T>, d: seq<T>)
    ensures ((a + b) + c) + d == a + (b + c + d)
  {
  }

  lemma SliceSnoc<T>(a: seq<T>, base: nat, x: seq<T>, n: T)
    requires base + |x| + 1 <= |a| && a[base..base + |x| + 1] == x + [n]
    ensures a[base..base + |x|] == x && a[base + |x|] == n
  {
    JoinSlices(a, base, base + |x|, base + |x| + 1);
    SplitConcat(a[base..base + |x|], a[base + |x|..base + |x| + 1], x, [n]);
  }

  /** The parts of a slice that is a concatenation. */
  lemma SliceConcat<T>(a: seq<T>, base: nat, x: seq<T>, y: seq<T>)
    requires base + |x| + |y| <= |a| && a[base..base + |x| + |y|] == x + y
    ensures a[base..base + |x|] == x && a[base + |x|..base + |x| + |y|] == y
  {
    JoinSlices(a, base, base + |x|, base + |x| + |y|);
    SplitConcat(a[base..base + |x|], a[base + |x|..base + |x| + |y|], x, y);
  }
}
