/** Readers that consume a prefix of a byte string, counted lists of items whose admissibility
    depends on the items before them, and when such a reader inverts an encoding. */
module ImageFormat {
  import opened Bytes
  import opened Seqs

  datatype LoadErr =
    | LdOk | LdShort | LdMagic | LdVersion | LdProfile | LdFlags | LdCount | LdSection | LdFn
    | LdOpcode | LdJump | LdCall | LdLocal | LdRegion | LdAbi | LdTrailing | LdSelfHash

  type Trouble = e: LoadErr | e != LdOk witness LdShort

  datatype Res<+T> = Got(v: T, rest: bytes) | Bad(err: Trouble)
  {
    predicate IsFailure() { Bad? }
    function PropagateFailure<U>(): Res<U> requires Bad? { Bad(err) }
    function Extract(): (T, bytes) requires Got? { (v, rest) }
  }

  /** A little-endian field of `n` bytes, or `err` where the string is too short. */
  function Field(b: bytes, n: nat, err: Trouble): Res<nat>
  {
    if |b| < n then Bad(err) else Got(FromLE(b[..n]), b[n..])
  }

  lemma FieldExact(b: bytes, n: nat, err: Trouble, v: nat, rest: bytes)
    ensures Field(b, n, err) == Got(v, rest) <==> v < Pow256(n) && b == LE(v, n) + rest
  {
    if |b| >= n {
      FromLERoundTrip(b[..n]);
      TakeDrop(b, n);
    }
    if v < Pow256(n) && b == LE(v, n) + rest {
      LERoundTrip(v, n);
      ConcatParts(LE(v, n), rest);
    }
  }

  /** How one item of a list is read, given a summary `S` of the items before it. */
  datatype Format<!S, !T> = Format(read: (S, bytes) -> Res<T>, next: (S, T) -> S,
                                   fits: (S, T) -> bool, enc: (S, T) -> bytes)

  ghost predicate ReadsBack<S, T>(f: Format<S, T>, s: S, b: bytes, x: T, rest: bytes)
  {
    f.read(s, b) == Got(x, rest) <==> f.fits(s, x) && b == f.enc(s, x) + rest
  }

  /** The reader accepts exactly the encodings of admissible items. */
  ghost predicate Exact<S(!new), T(!new)>(f: Format<S, T>)
  {
    forall s, b, x, rest :: ReadsBack(f, s, b, x, rest)
  }

  function Prepend<T>(acc: seq<T>, r: Res<seq<T>>): Res<seq<T>>
  {
    if r.Got? then Got(acc + r.v, r.rest) else r
  }

  function ReadList<S, T>(f: Format<S, T>, s: S, n: nat, b: bytes): (r: Res<seq<T>>)
    ensures r.Got? ==> |r.v| == n
    decreases n
  {
    if n == 0 then Got([], b)
    else
      match f.read(s, b)
      case Bad(e) => Bad(e)
      case Got(x, rest) => Prepend([x], ReadList(f, f.next(s, x), n - 1, rest))
  }

  predicate ListFits<S, T>(f: Format<S, T>, s: S, xs: seq<T>)
  {
    xs == [] || (f.fits(s, xs[0]) && ListFits(f, f.next(s, xs[0]), xs[1..]))
  }

  function ListEnc<S, T>(f: Format<S, T>, s: S, xs: seq<T>): bytes
  {
    if xs == [] then [] else f.enc(s, xs[0]) + ListEnc(f, f.next(s, xs[0]), xs[1..])
  }

  lemma ReadDone<S, T>(f: Format<S, T>, s: S, b: bytes, acc: seq<T>)
    ensures Prepend(acc, ReadList(f, s, 0, b)) == Got(acc, b)
  {
    assert acc + [] == acc;
  }

  /** One more item read: the step of every loop over a section. */
  lemma ReadStep<S, T>(f: Format<S, T>, s: S, n: nat, b: bytes, acc: seq<T>)
    requires n > 0
    ensures match f.read(s, b)
            case Bad(e) => Prepend(acc, ReadList(f, s, n, b)) == Bad(e)
            case Got(x, rest) =>
              Prepend(acc, ReadList(f, s, n, b)) == Prepend(acc + [x], ReadList(f, f.next(s, x), n - 1, rest))
  {
    if f.read(s, b).Got? {
      var x := f.read(s, b).v;
      var r := ReadList(f, f.next(s, x), n - 1, f.read(s, b).rest);
      if r.Got? {
        Regroup(acc, [x], r.v);
      }
    }
  }

  /** A list of items is read back exactly when every item is. */
  lemma {:induction false} ListExact<S(!new), T(!new)>(f: Format<S, T>, s: S, b: bytes, xs: seq<T>, rest: bytes)
    requires Exact(f)
    ensures ReadList(f, s, |xs|, b) == Got(xs, rest) <==> ListFits(f, s, xs) && b == ListEnc(f, s, xs) + rest
    decreases |xs|
  {
    if xs != [] {
      HeadTail(xs);
      var s' := f.next(s, xs[0]);
      if ReadList(f, s, |xs|, b) == Got(xs, rest) {
        var r := f.read(s, b);
        assert ReadsBack(f, s, b, r.v, r.rest);
        SplitConcat([r.v], ReadList(f, f.next(s, r.v), |xs| - 1, r.rest).v, [xs[0]], xs[1..]);
        ListExact(f, s', r.rest, xs[1..], rest);
        Regroup(f.enc(s, xs[0]), ListEnc(f, s', xs[1..]), rest);
      }
      if ListFits(f, s, xs) && b == ListEnc(f, s, xs) + rest {
        var mid := ListEnc(f, s', xs[1..]) + rest;
        Regroup(f.enc(s, xs[0]), ListEnc(f, s', xs[1..]), rest);
        assert ReadsBack(f, s, b, xs[0], mid);
        ListExact(f, s', mid, xs[1..], rest);
      }
    }
  }
}
