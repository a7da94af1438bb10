/** Concatenations of prefix-free code words, and what a possibly torn string decodes to. */
module PrefixCodes {
  import opened Bytes
  import opened Seqs

  datatype Code<!T> = Code(enc: T -> bytes, valid: T -> bool)

  /** The code word of `a` is the beginning of that of `b`. */
  ghost predicate Begins<T>(c: Code<T>, a: T, b: T)
  {
    c.valid(a) && c.valid(b) && c.enc(a) <= c.enc(b)
  }

  /** No code word is the beginning of another, and none is empty. */
  ghost predicate PrefixFree<T(!new)>(c: Code<T>)
  {
    && (forall a, b :: Begins(c, a, b) ==> a == b)
    && (forall a :: c.valid(a) ==> c.enc(a) != [])
  }

  ghost predicate AllValid<T>(c: Code<T>, xs: seq<T>)
  {
    forall i :: 0 <= i < |xs| ==> c.valid(xs[i])
  }

  function Concat<T>(c: Code<T>, xs: seq<T>): bytes
  {
    if xs == [] then [] else c.enc(xs[0]) + Concat(c, xs[1..])
  }

  lemma {:induction false} ConcatAppend<T>(c: Code<T>, a: seq<T>, b: seq<T>)
    ensures Concat(c, a + b) == Concat(c, a) + Concat(c, b)
  {
    if a == [] {
      assert a + b == b;
    } else {
      AppendTail(a, b);
      ConcatAppend(c, a[1..], b);
      Regroup(c.enc(a[0]), Concat(c, a[1..]), Concat(c, b));
    }
  }

  lemma ConcatSnoc<T>(c: Code<T>, xs: seq<T>, x: T)
    ensures Concat(c, xs + [x]) == Concat(c, xs) + c.enc(x)
  {
    ConcatAppend(c, xs, [x]);
    assert Concat(c, [x]) == c.enc(x) + Concat(c, []);
  }

  lemma PrefixAfter(pre: bytes, f: bytes, rest: bytes)
    ensures f <= (pre + f + rest)[|pre|..]
  {
    assert (pre + f + rest)[|pre|..] == f + rest;
  }

  lemma Regroup4(pre: bytes, f: bytes, rest: bytes, tail: bytes)
    ensures pre + (f + rest) + tail == pre + f + (rest + tail) == (pre + f) + rest + tail
  {
  }

  lemma CutAfter(f: bytes, rest: bytes, cut: nat)
    requires |f| <= cut <= |f + rest|
    ensures (f + rest)[..cut] == f + rest[..cut - |f|]
  {
  }

  // ---------------------------------------------------------------- decoding

  /** The code word of `x` stands at `off`. */
  ghost predicate WordAt<T>(c: Code<T>, d: bytes, off: nat, x: T)
  {
    off <= |d| && c.valid(x) && c.enc(x) <= d[off..]
  }

  ghost predicate SomeWordAt<T(!new)>(c: Code<T>, d: bytes, off: nat)
  {
    exists x :: WordAt(c, d, off, x)
  }

  lemma WordUnique<T(!new)>(c: Code<T>, d: bytes, off: nat, a: T, b: T)
    requires PrefixFree(c) && WordAt(c, d, off, a) && WordAt(c, d, off, b)
    ensures a == b
  {
    if |c.enc(a)| <= |c.enc(b)| {
      assert Begins(c, a, b);
    } else {
      assert Begins(c, b, a);
    }
  }

  ghost function ItemAt<T(!new)>(c: Code<T>, d: bytes, off: nat): (x: T)
    requires SomeWordAt(c, d, off)
    ensures WordAt(c, d, off, x)
  {
    var x :| WordAt(c, d, off, x); x
  }

  /** The items read from `off` on, up to the first place where no code word stands. */
  ghost function Decode<T(!new)>(c: Code<T>, d: bytes, off: nat): seq<T>
    requires PrefixFree(c) && off <= |d|
    decreases |d| - off
  {
    if SomeWordAt(c, d, off) then
      var x := ItemAt(c, d, off);
      [x] + Decode(c, d, off + |c.enc(x)|)
    else []
  }

  lemma DecodeStep<T(!new)>(c: Code<T>, d: bytes, off: nat, x: T)
    requires PrefixFree(c) && WordAt(c, d, off, x)
    ensures off + |c.enc(x)| <= |d|
    ensures Decode(c, d, off) == [x] + Decode(c, d, off + |c.enc(x)|)
  {
    WordUnique(c, d, off, x, ItemAt(c, d, off));
  }

  lemma NoWordAtEnd<T(!new)>(c: Code<T>, d: bytes)
    requires PrefixFree(c)
    ensures !SomeWordAt(c, d, |d|)
  {
    forall x ensures !WordAt(c, d, |d|, x) {
      assert d[|d|..] == [];
    }
  }

  /** The decoded items really stand in the string, and no code word follows them. */
  lemma {:induction false} DecodeSound<T(!new)>(c: Code<T>, d: bytes, off: nat)
    requires PrefixFree(c) && off <= |d|
    ensures var xs := Decode(c, d, off);
            && AllValid(c, xs) && off + |Concat(c, xs)| <= |d|
            && d[off..off + |Concat(c, xs)|] == Concat(c, xs)
            && !SomeWordAt(c, d, off + |Concat(c, xs)|)
    decreases |d| - off
  {
    if SomeWordAt(c, d, off) {
      var x := ItemAt(c, d, off);
      var n := off + |c.enc(x)|;
      DecodeSound(c, d, n);
      var rest := Decode(c, d, n);
      assert Decode(c, d, off)[1..] == rest;
      assert d[off..n] == c.enc(x);
      assert d[off..n + |Concat(c, rest)|] == d[off..n] + d[n..n + |Concat(c, rest)|];
    }
  }

  /** Decoding whole code words gives the items back, whatever surrounds them. */
  lemma {:induction false} DecodeConcat<T(!new)>(c: Code<T>, pre: bytes, xs: seq<T>, tail: bytes)
    requires PrefixFree(c) && AllValid(c, xs)
    ensures var d := pre + Concat(c, xs) + tail;
            Decode(c, d, |pre|) == xs + Decode(c, d, |pre| + |Concat(c, xs)|)
    decreases |xs|
  {
    var d := pre + Concat(c, xs) + tail;
    if xs != [] {
      var f, rest := c.enc(xs[0]), Concat(c, xs[1..]);
      assert Concat(c, xs) == f + rest;
      Regroup4(pre, f, rest, tail);
      PrefixAfter(pre, f, rest + tail);
      DecodeStep(c, d, |pre|, xs[0]);
      DecodeConcat(c, pre + f, xs[1..], tail);
      HeadTail(xs);
      Regroup([xs[0]], xs[1..], Decode(c, d, |pre| + |Concat(c, xs)|));
    }
  }

  /** How many leading items have their code words completely within `cut` bytes. */
  function WholeWords<T>(c: Code<T>, xs: seq<T>, cut: nat): (n: nat)
    ensures n <= |xs|
  {
    if xs != [] && |c.enc(xs[0])| <= cut then 1 + WholeWords(c, xs[1..], cut - |c.enc(xs[0])|) else 0
  }

  lemma {:induction false} WholeWordsFit<T>(c: Code<T>, xs: seq<T>, cut: nat)
    ensures var n := WholeWords(c, xs, cut);
            && |Concat(c, xs[..n])| <= cut
            && (n < |xs| ==> cut < |Concat(c, xs[..n + 1])|)
  {
    if xs != [] {
      var f := |c.enc(xs[0])|;
      if f <= cut {
        WholeWordsFit(c, xs[1..], cut - f);
        var n := WholeWords(c, xs, cut);
        assert xs[..n][1..] == xs[1..][..n - 1];
        if n < |xs| { assert xs[..n + 1][1..] == xs[1..][..n]; }
      } else {
        assert xs[..1][1..] == [];
      }
    }
  }

  /** A string that ends inside a code word holds no code word there. */
  lemma CutWord<T(!new)>(c: Code<T>, pre: bytes, x: T, cut: nat)
    requires PrefixFree(c) && c.valid(x) && cut < |c.enc(x)|
    ensures !SomeWordAt(c, pre + c.enc(x)[..cut], |pre|)
  {
    var d := pre + c.enc(x)[..cut];
    assert d[|pre|..] == c.enc(x)[..cut];
    forall y ensures !WordAt(c, d, |pre|, y) {
      assert WordAt(c, d, |pre|, y) ==> Begins(c, y, x);
    }
  }

  /** Torn tails: words cut at any byte decode to exactly the items that are whole. */
  lemma {:induction false} DecodeTorn<T(!new)>(c: Code<T>, pre: bytes, xs: seq<T>, cut: nat)
    requires PrefixFree(c) && AllValid(c, xs) && cut <= |Concat(c, xs)|
    ensures Decode(c, pre + Concat(c, xs)[..cut], |pre|) == xs[..WholeWords(c, xs, cut)]
    decreases |xs|
  {
    var d := pre + Concat(c, xs)[..cut];
    if xs == [] {
      assert d == pre;
      NoWordAtEnd(c, d);
    } else {
      var f := c.enc(xs[0]);
      if cut < |f| {
        assert Concat(c, xs)[..cut] == f[..cut];
        CutWord(c, pre, xs[0], cut);
      } else {
        TornStep(c, pre, xs, cut);
        DecodeTorn(c, pre + f, xs[1..], cut - |f|);
        var n := WholeWords(c, xs, cut);
        assert xs[..n] == [xs[0]] + xs[1..][..n - 1];
      }
    }
  }

  lemma TornStep<T(!new)>(c: Code<T>, pre: bytes, xs: seq<T>, cut: nat)
    requires PrefixFree(c) && AllValid(c, xs) && xs != [] && |c.enc(xs[0])| <= cut <= |Concat(c, xs)|
    ensures var d := pre + Concat(c, xs)[..cut];
            var f := c.enc(xs[0]);
            && d == (pre + f) + Concat(c, xs[1..])[..cut - |f|]
            && Decode(c, d, |pre|) == [xs[0]] + Decode(c, d, |pre + f|)
  {
    var f, rest := c.enc(xs[0]), Concat(c, xs[1..]);
    CutAfter(f, rest, cut);
    var r := rest[..cut - |f|];
    var d := pre + Concat(c, xs)[..cut];
    assert d == pre + f + r;
    PrefixAfter(pre, f, r);
    DecodeStep(c, d, |pre|, xs[0]);
  }

  lemma WordAtExtend<T>(c: Code<T>, d: bytes, more: bytes, off: nat, x: T)
    requires WordAt(c, d, off, x)
    ensures WordAt(c, d + more, off, x)
  {
    assert (d + more)[off..] == d[off..] + more;
  }

  /** A longer string decodes to at least as much. */
  lemma {:induction false} DecodeMonotone<T(!new)>(c: Code<T>, d: bytes, more: bytes, off: nat)
    requires PrefixFree(c) && off <= |d|
    ensures Decode(c, d, off) <= Decode(c, d + more, off)
    decreases |d| - off
  {
    if SomeWordAt(c, d, off) {
      var x := ItemAt(c, d, off);
      WordAtExtend(c, d, more, off, x);
      DecodeStep(c, d + more, off, x);
      DecodeMonotone(c, d, more, off + |c.enc(x)|);
    }
  }

  lemma {:induction false} WholeWordsAppend<T>(c: Code<T>, a: seq<T>, b: seq<T>, cut: nat)
    requires |Concat(c, a)| <= cut
    ensures WholeWords(c, a + b, cut) == |a| + WholeWords(c, b, cut - |Concat(c, a)|)
  {
    if a == [] {
      assert a + b == b;
    } else {
      var f := |c.enc(a[0])|;
      AppendTail(a, b);
      WholeWordsAppend(c, a[1..], b, cut - f);
    }
  }
}
