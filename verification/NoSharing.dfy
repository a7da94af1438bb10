/** Arenas of the parser share nothing: every node except the last is the operand of exactly one
    other node. */
module NoSharing {
  import opened Bytes
  import opened Int64
  import opened Seqs
  import opened Syntax

  function One(b: bool): nat { if b then 1 else 0 }

  /** How often a node refers to node `i`; a link of 0 in an argument list means that there is
      none. */
  function Links(n: Node, i: nat): nat
  {
    match n.tag
    case TLit => 0
    case TVarRef => 0
    case TPos => One(n.lhs == i)
    case TNeg => One(n.lhs == i)
    case TBin(_) => One(n.lhs == i) + One(n.rhs == i)
    case TCall => One(n.lhs != 0 && n.lhs == i)
    case TCallArg => One(n.lhs == i) + One(n.rhs != 0 && n.rhs == i)
  }

  /** How often the nodes of an arena refer to node `i`. */
  function References(nodes: seq<Node>, i: nat): nat
  {
    if nodes == [] then 0 else Links(nodes[0], i) + References(nodes[1..], i)
  }

  function Within(lo: nat, n: nat, i: nat): nat { One(lo <= i < lo + n) }

  lemma {:induction false} ReferencesConcat(a: seq<Node>, b: seq<Node>, i: nat)
    ensures References(a + b, i) == References(a, i) + References(b, i)
  {
    if a == [] {
      assert a + b == b;
    } else {
      AppendTail(a, b);
      ReferencesConcat(a[1..], b, i);
    }
  }

  lemma ReferencesSnoc(a: seq<Node>, n: Node, i: nat)
    ensures References(a + [n], i) == References(a, i) + Links(n, i)
  {
    ReferencesConcat(a, [n], i);
    assert [n][1..] == [];
  }

  function Occurrences(roots: seq<nat>, i: nat): nat
  {
    if roots == [] then 0 else Occurrences(roots[..|roots| - 1], i) + One(roots[|roots| - 1] == i)
  }

  lemma {:induction false} OccurrencesHead(r: nat, roots: seq<nat>, i: nat)
    ensures Occurrences([r] + roots, i) == One(r == i) + Occurrences(roots, i)
  {
    if roots == [] {
      assert ([r] + roots)[..0] == [] && [r] + roots == [r];
    } else {
      var k := |roots| - 1;
      assert ([r] + roots)[..k + 1] == [r] + roots[..k];
      OccurrencesHead(r, roots[..k], i);
    }
  }

  /** The argument nodes refer to their roots and to each other. */
  lemma {:induction false} ChainReferences(roots: seq<nat>, base: nat, i: nat)
    requires base > 0
    ensures References(Chain(roots, base), i) ==
            Occurrences(roots, i) + Within(base, if roots == [] then 0 else |roots| - 1, i)
  {
    hide References;
    if roots == [] {
      NoArguments(base, i);
    } else {
      var k := |roots| - 1;
      ChainReferences(roots[..k], base, i);
      var n := Node(TCallArg, roots[k], if k == 0 then 0 else base + k - 1, 0, []);
      ReferencesSnoc(Chain(roots[..k], base), n, i);
    }
  }

  lemma NoArguments(base: nat, i: nat)
    ensures FlatAll([], base) == [] && Roots([], base) == [] && Chain([], base) == [] && References([], i) == 0
  {
  }

  /** In the arena of a tree every node but the root is referred to once, and nothing else is. */
  lemma {:induction false} FlatReferences(t: Expr, base: nat, i: nat)
    ensures References(Flat(t, base), i) == Within(base, Size(t) - 1, i)
    decreases t, 0
  {
    hide References, Flat, FlatAll, Chain, Roots, Links;
    match t {
      case Lit(v) => LeafReferences(t, base, i);
      case Var(n) => LeafReferences(t, base, i);
      case Pos(e) => SignedReferences(TPos, e, base, i);
      case Neg(e) => SignedReferences(TNeg, e, base, i);
      case Bin(op, l, r) =>
        FlatReferences(l, base, i);
        FlatReferences(r, base + Size(l), i);
        BinReferences(op, l, r, base, i);
      case Call(name, args) =>
        FlatAllReferences(args, base, i);
        CallReferences(name, args, base, i);
    }
  }

  lemma {:induction false} SignedReferences(sign: Tag, e: Expr, base: nat, i: nat)
    requires sign == TPos || sign == TNeg
    ensures References(Flat(Signed(sign, e), base), i) == Within(base, Size(e), i)
    decreases e, 1
  {
    hide References, Flat, Size;
    FlatReferences(e, base, i);
    SizePositive(e);
    var n := Node(sign, base + Size(e) - 1, 0, 0, []);
    FlatSigned(sign, e, base, Flat(e, base), n);
    ReferencesSnoc(Flat(e, base), n, i);
  }

  lemma BinReferences(op: BinOp, l: Expr, r: Expr, base: nat, i: nat)
    requires References(Flat(l, base), i) == Within(base, Size(l) - 1, i)
    requires References(Flat(r, base + Size(l)), i) == Within(base + Size(l), Size(r) - 1, i)
    ensures References(Flat(Bin(op, l, r), base), i) == Within(base, Size(l) + Size(r), i)
  {
    hide References, Flat, Size;
    SizePositive(l);
    SizePositive(r);
    var x, y := Flat(l, base), Flat(r, base + Size(l));
    var n := Node(TBin(op), base + Size(l) - 1, base + Size(l) + Size(r) - 1, 0, []);
    FlatBin(l, r, op, base, x, y, n);
    ReferencesConcat(x, y, i);
    ReferencesSnoc(x + y, n, i);
  }

  lemma CallReferences(name: bytes, args: seq<Expr>, base: nat, i: nat)
    requires References(FlatAll(args, base), i) + Occurrences(Roots(args, base), i) == Within(base, SizeAll(args), i)
    ensures References(Flat(Call(name, args), base), i) == Within(base, SizeAll(args) + |args|, i)
  {
    hide References, Flat, FlatAll, Chain, Roots, Size;
    var s := SizeAll(args);
    var all, chain := FlatAll(args, base), Chain(Roots(args, base), base + s);
    var n := Node(TCall, if args == [] then 0 else base + s + |args| - 1, 0, |args| % TWO63, name);
    FlatCall(name, args, base, all, chain, n);
    ReferencesConcat(all, chain, i);
    ReferencesSnoc(all + chain, n, i);
    if args == [] {
      NoArguments(base, i);
    } else {
      SizePositive(args[0]);
      ChainReferences(Roots(args, base), base + s, i);
    }
  }

  lemma LeafReferences(t: Expr, base: nat, i: nat)
    requires t.Lit? || t.Var?
    ensures References(Flat(t, base), i) == 0 == Within(base, Size(t) - 1, i)
  {
    assert Flat(t, base)[1..] == [];
  }

  lemma {:induction false} FlatAllReferences(ts: seq<Expr>, base: nat, i: nat)
    ensures References(FlatAll(ts, base), i) + Occurrences(Roots(ts, base), i) == Within(base, SizeAll(ts), i)
    decreases ts, 0
  {
    hide Flat, References, Occurrences;
    if ts == [] {
      NoArguments(base, i);
      NoOccurrences(i);
    } else {
      var s := Size(ts[0]);
      SizePositive(ts[0]);
      FlatReferences(ts[0], base, i);
      FlatAllReferences(ts[1..], base + s, i);
      ReferencesConcat(Flat(ts[0], base), FlatAll(ts[1..], base + s), i);
      OccurrencesHead(base + s - 1, Roots(ts[1..], base + s), i);
    }
  }

  lemma NoOccurrences(i: nat)
    ensures Occurrences([], i) == 0
  {
  }

  /** For the arena of every parsed source: one reference to every node, none to the root. */
  lemma NoneShared(t: Expr, i: nat)
    requires i < |Flat(t, 0)|
    ensures References(Flat(t, 0), i) == if i == |Flat(t, 0)| - 1 then 0 else 1
  {
    hide Flat, References;
    FlatSize(t, 0);
    FlatReferences(t, 0, i);
  }
}
