/** Expression trees, the grammar the Pratt parser accepts, and the flat arena layout. */
module Syntax {
  import opened Bytes
  import opened Seqs
  import opened Int64
  import opened Token

  const ARENA_CAP: nat := 256
  const MAX_DEPTH: nat := 64
  const MAX_ARGS: nat := 16

  datatype LinErr =
    | LinOk
    | ArenaOom
    | MissingCloseParen | UnexpectedPrimary | InvalidBinaryOp | TrailingTokens
    | InvalidNode | DivZero | UndefVar
    | VmStepLimit | VmStackOverflow | VmStackUnderflow | VmBadFn | VmDepth | VmArity | VmDivZero
    | ParseTooDeep

  datatype BinOp = OpAdd | OpSub | OpMul | OpDiv | OpMod | OpEq | OpNeq | OpLt | OpLte | OpGt | OpGte

  datatype Expr =
    | Lit(val: i64)
    | Var(name: bytes)
    | Pos(arg: Expr)
    | Neg(arg: Expr)
    | Bin(op: BinOp, left: Expr, right: Expr)
    | Call(name: bytes, args: seq<Expr>)

  // ---------------------------------------------------------------- operators

  function Precedence(t: Token): nat
  {
    match t
    case EqEq | NotEq | Lt | Lte | Gt | Gte => 1
    case Plus | Minus => 2
    case Mul | Div | Mod => 3
    case _ => 0
  }

  function OpOf(t: Token): BinOp
    requires Precedence(t) > 0
  {
    match t
    case Plus => OpAdd case Minus => OpSub
    case Mul => OpMul case Div => OpDiv case Mod => OpMod
    case EqEq => OpEq case NotEq => OpNeq
    case Lt => OpLt case Lte => OpLte case Gt => OpGt case Gte => OpGte
  }

  function TokenOf(op: BinOp): (t: Token)
    ensures Precedence(t) > 0 && OpOf(t) == op
  {
    match op
    case OpAdd => Plus case OpSub => Minus
    case OpMul => Mul case OpDiv => Div case OpMod => Mod
    case OpEq => EqEq case OpNeq => NotEq
    case OpLt => Lt case OpLte => Lte case OpGt => Gt case OpGte => Gte
  }

  function PrecOf(op: BinOp): nat { Precedence(TokenOf(op)) }

  // ---------------------------------------------------------------- nodes

  datatype Tag = TLit | TVarRef | TPos | TNeg | TBin(op: BinOp) | TCall | TCallArg

  datatype Node = Node(tag: Tag, lhs: nat, rhs: nat, val: i64, name: bytes)

  function Size(t: Expr): nat
  {
    match t
    case Lit(_) => 1
    case Var(_) => 1
    case Pos(e) => Size(e) + 1
    case Neg(e) => Size(e) + 1
    case Bin(_, l, r) => Size(l) + Size(r) + 1
    case Call(_, args) => SizeAll(args) + |args| + 1
  }

  function SizeAll(ts: seq<Expr>): nat
  {
    if ts == [] then 0 else Size(ts[0]) + SizeAll(ts[1..])
  }

  lemma SizePositive(t: Expr)
    ensures Size(t) >= 1
  {
  }

  /** The post-order arena image of a tree whose first node gets index `base`. */
  function Flat(t: Expr, base: nat): (r: seq<Node>)
    decreases t
  {
    match t
    case Lit(v) => [Node(TLit, 0, 0, v, [])]
    case Var(n) => [Node(TVarRef, 0, 0, 0, n)]
    case Pos(e) => Flat(e, base) + [Node(TPos, base + Size(e) - 1, 0, 0, [])]
    case Neg(e) => Flat(e, base) + [Node(TNeg, base + Size(e) - 1, 0, 0, [])]
    case Bin(op, l, r) =>
      Flat(l, base) + Flat(r, base + Size(l))
      + [Node(TBin(op), base + Size(l) - 1, base + Size(l) + Size(r) - 1, 0, [])]
    case Call(n, args) =>
      FlatAll(args, base) + Chain(Roots(args, base), base + SizeAll(args))
      + [Node(TCall, if args == [] then 0 else base + SizeAll(args) + |args| - 1, 0, |args| % TWO63, n)]
  }

  function FlatAll(ts: seq<Expr>, base: nat): seq<Node>
    decreases ts
  {
    if ts == [] then [] else Flat(ts[0], base) + FlatAll(ts[1..], base + Size(ts[0]))
  }

  /** The indices of the argument expressions of a call. */
  function Roots(ts: seq<Expr>, base: nat): (r: seq<nat>)
    ensures |r| == |ts|
  {
    if ts == [] then [] else SizePositive(ts[0]); [base + Size(ts[0]) - 1] + Roots(ts[1..], base + Size(ts[0]))
  }

  /** One argument node for each root, linked to the one before it. */
  function Chain(roots: seq<nat>, base: nat): (r: seq<Node>)
    ensures |r| == |roots|
  {
    if roots == [] then []
    else
      var n := |roots| - 1;
      Chain(roots[..n], base) + [Node(TCallArg, roots[n], if n == 0 then 0 else base + n - 1, 0, [])]
  }

  lemma {:induction false} FlatSize(t: Expr, base: nat)
    ensures |Flat(t, base)| == Size(t)
    decreases t
  {
    hide Flat, Size, FlatAll, SizeAll, Chain, Roots;
    Sizes();
    LeafImages(base);
    match t {
      case Lit(_) =>
      case Var(_) =>
      case Pos(e) =>
        FlatSize(e, base);
        SizePositive(e);
        FlatSigned(TPos, e, base, Flat(e, base), Node(TPos, base + Size(e) - 1, 0, 0, []));
      case Neg(e) =>
        FlatSize(e, base);
        SizePositive(e);
        FlatSigned(TNeg, e, base, Flat(e, base), Node(TNeg, base + Size(e) - 1, 0, 0, []));
      case Bin(op, l, r) =>
        FlatSize(l, base);
        SizePositive(l);
        FlatSize(r, base + Size(l));
        FlatBin(l, r, op, base, Flat(l, base), Flat(r, base + Size(l)),
                Node(TBin(op), base + Size(l) - 1, base + Size(l) + Size(r) - 1, 0, []));
      case Call(n, args) =>
        FlatAllSize(args, base);
        FlatCall(n, args, base, FlatAll(args, base), Chain(Roots(args, base), base + SizeAll(args)),
                 Node(TCall, if args == [] then 0 else base + SizeAll(args) + |args| - 1, 0, |args| % TWO63, n));
    }
  }

  lemma {:induction false} FlatAllSize(ts: seq<Expr>, base: nat)
    ensures |FlatAll(ts, base)| == SizeAll(ts)
    decreases ts
  {
    if ts != [] {
      FlatSize(ts[0], base);
      FlatAllSize(ts[1..], base + Size(ts[0]));
    }
  }

  lemma FlatBin(l: Expr, r: Expr, op: BinOp, base: nat, a: seq<Node>, b: seq<Node>, node: Node)
    requires a == Flat(l, base) && b == Flat(r, base + Size(l))
    requires node == Node(TBin(op), base + Size(l) - 1, base + Size(l) + Size(r) - 1, 0, [])
    ensures Flat(Bin(op, l, r), base) == a + b + [node]
  {
  }

  lemma LeafImages(base: nat)
    ensures forall v :: Flat(Lit(v), base) == [Node(TLit, 0, 0, v, [])]
    ensures forall n :: Flat(Var(n), base) == [Node(TVarRef, 0, 0, 0, n)]
  {
  }

  lemma FlatSigned(sign: Tag, e: Expr, base: nat, a: seq<Node>, node: Node)
    requires (sign == TPos || sign == TNeg) && a == Flat(e, base)
    requires node == Node(sign, base + Size(e) - 1, 0, 0, [])
    ensures Flat(Signed(sign, e), base) == a + [node]
  {
  }

  lemma FlatCall(name: bytes, args: seq<Expr>, base: nat, a: seq<Node>, c: seq<Node>, node: Node)
    requires a == FlatAll(args, base) && c == Chain(Roots(args, base), base + SizeAll(args))
    requires node == Node(TCall, if args == [] then 0 else base + SizeAll(args) + |args| - 1, 0, |args| % TWO63, name)
    ensures Flat(Call(name, args), base) == a + c + [node]
  {
  }

  lemma Sizes()
    ensures forall sign, e :: Size(Signed(sign, e)) == Size(e) + 1
    ensures forall op, l, r :: Size(Bin(op, l, r)) == Size(l) + Size(r) + 1
    ensures forall v :: Size(Lit(v)) == 1
    ensures forall n :: Size(Var(n)) == 1
    ensures forall n, args :: Size(Call(n, args)) == SizeAll(args) + |args| + 1
  {
  }

  // ---------------------------------------------------------------- the grammar, as a function

  type Failure = e: LinErr | e != LinOk witness ArenaOom

  datatype Parsed = POk(tree: Expr, rest: seq<Token>) | PErr(err: Failure)
  datatype ParsedArgs = AOk(trees: seq<Expr>, rest: seq<Token>) | AErr(err: Failure)

  /** Adds one node to `count` existing ones, if the arena has room for it. */
  function Grown(count: nat, t: Expr, rest: seq<Token>): Parsed
  {
    if count >= ARENA_CAP then PErr(ArenaOom) else POk(t, rest)
  }

  function ParsePrimary(ts: seq<Token>, depth: nat, count: nat): (r: Parsed)
    ensures r.POk? ==> |r.rest| < |ts|
    decreases |ts|, 1
  {
    if depth > MAX_DEPTH then PErr(ParseTooDeep) else ParsePrimaryImpl(ts, depth + 1, count)
  }

  function ParsePrimaryImpl(ts: seq<Token>, depth: nat, count: nat): (r: Parsed)
    ensures r.POk? ==> |r.rest| < |ts|
    decreases |ts|, 0
  {
    var r := Tail(ts);
    match Head(ts)
    case IntLit(v) => Grown(count, Lit(v), r)
    case Ident(n) => if Head(r) == LParen then ParseCall(n, Tail(r), depth, count) else Grown(count, Var(n), r)
    case Plus => ParseSigned(TPos, r, depth, count)
    case Minus => ParseSigned(TNeg, r, depth, count)
    case LParen => ParseGroup(r, depth, count)
    case _ => PErr(UnexpectedPrimary)
  }

  /** The operand of a sign. */
  function ParseSigned(sign: Tag, ts: seq<Token>, depth: nat, count: nat): (r: Parsed)
    ensures r.POk? ==> |r.rest| <= |ts|
    decreases |ts|, 2
  {
    var p := ParsePrimary(ts, depth, count);
    if p.PErr? then p else Grown(count + Size(p.tree), Signed(sign, p.tree), p.rest)
  }

  function Signed(sign: Tag, t: Expr): Expr
  {
    if sign == TPos then Pos(t) else Neg(t)
  }

  /** The inside of a pair of parentheses; it adds no node of its own. */
  function ParseGroup(ts: seq<Token>, depth: nat, count: nat): (r: Parsed)
    ensures r.POk? ==> |r.rest| <= |ts|
    decreases |ts|, 3
  {
    var p := ParseExpr(ts, depth, count, 0);
    if p.PErr? then p
    else if Head(p.rest) != RParen then PErr(MissingCloseParen)
    else POk(p.tree, Tail(p.rest))
  }

  /** A call, from behind its opening parenthesis. */
  function ParseCall(name: bytes, ts: seq<Token>, depth: nat, count: nat): (r: Parsed)
    ensures r.POk? ==> |r.rest| <= |ts|
    decreases |ts|, 4
  {
    var args := if Head(ts) == RParen then AOk([], Tail(ts)) else ParseArgs(ts, depth, count, 0);
    if args.AErr? then PErr(args.err)
    else if count + SizeAll(args.trees) + |args.trees| >= ARENA_CAP then PErr(ArenaOom)
    else POk(Call(name, args.trees), args.rest)
  }

  /** The arguments of a call from the `n`-th on, up to and including the closing parenthesis. */
  function ParseArgs(ts: seq<Token>, depth: nat, count: nat, n: nat): (r: ParsedArgs)
    ensures r.AOk? ==> |r.rest| < |ts|
    decreases |ts|, 3
  {
    if n >= MAX_ARGS then AErr(ArenaOom)
    else
      var p := ParseExpr(ts, depth, count, 0);
      if p.PErr? then AErr(p.err)
      else if Head(p.rest) == RParen then AOk([p.tree], Tail(p.rest))
      else if Head(p.rest) == Comma then
        var more := ParseArgs(Tail(p.rest), depth, count + Size(p.tree), n + 1);
        if more.AErr? then more else AOk([p.tree] + more.trees, more.rest)
      else AErr(MissingCloseParen)
  }

  function ParseExpr(ts: seq<Token>, depth: nat, count: nat, minPrec: nat): (r: Parsed)
    ensures r.POk? ==> |r.rest| < |ts|
    decreases |ts|, 2
  {
    var p := ParsePrimary(ts, depth, count);
    if p.PErr? then p else ParseLoop(p.tree, p.rest, depth, count, minPrec)
  }

  /** The precedence loop, with the operand parsed so far. */
  function ParseLoop(left: Expr, ts: seq<Token>, depth: nat, count: nat, minPrec: nat): (r: Parsed)
    ensures r.POk? ==> |r.rest| <= |ts|
    decreases |ts|, 4
  {
    var prec := Precedence(Head(ts));
    if prec == 0 || prec <= minPrec then POk(left, ts)
    else
      var p := ParseRight(Head(ts), left, Tail(ts), depth, count);
      if p.PErr? then p else ParseLoop(p.tree, p.rest, depth, count, minPrec)
  }

  /** The right operand of a binary operator. */
  function ParseRight(op: Token, left: Expr, ts: seq<Token>, depth: nat, count: nat): (r: Parsed)
    requires Precedence(op) > 0
    ensures r.POk? ==> |r.rest| < |ts|
    decreases |ts|, 3
  {
    var p := ParseExpr(ts, depth, count + Size(left), Precedence(op));
    if p.PErr? then p
    else if count + Size(left) + Size(p.tree) >= ARENA_CAP then PErr(ArenaOom)
    else POk(Bin(OpOf(op), left, p.tree), p.rest)
  }

  /** A whole source: one expression and nothing after it. */
  function ParseFull(ts: seq<Token>): Parsed
  {
    var p := ParseExpr(ts, 0, 0, 0);
    if p.POk? && p.rest != [] then PErr(TrailingTokens) else p
  }

  // ---------------------------------------------------------------- capacity

  /** A successful parse never outgrows the arena. */
  lemma {:induction false} ExprFits(ts: seq<Token>, depth: nat, count: nat, minPrec: nat)
    requires count <= ARENA_CAP
    ensures var p := ParseExpr(ts, depth, count, minPrec); p.POk? ==> count + Size(p.tree) <= ARENA_CAP
    decreases |ts|, 2
  {
    PrimaryFits(ts, depth, count);
    var p := ParsePrimary(ts, depth, count);
    if p.POk? { LoopFits(p.tree, p.rest, depth, count, minPrec); }
  }

  lemma {:induction false} PrimaryFits(ts: seq<Token>, depth: nat, count: nat)
    requires count <= ARENA_CAP
    ensures var p := ParsePrimary(ts, depth, count); p.POk? ==> count + Size(p.tree) <= ARENA_CAP
    decreases |ts|, 1
  {
    hide ParseExpr, ParseArgs, ParseLoop;
    if depth <= MAX_DEPTH {
      var r := Tail(ts);
      var p := ParsePrimaryImpl(ts, depth + 1, count);
      match Head(ts) {
        case IntLit(_) =>
        case Ident(n) => assert Head(r) == LParen ==> p == ParseCall(n, Tail(r), depth + 1, count);
        case Plus =>
          PrimaryFits(r, depth + 1, count);
          assert p == ParseSigned(TPos, r, depth + 1, count);
        case Minus =>
          PrimaryFits(r, depth + 1, count);
          assert p == ParseSigned(TNeg, r, depth + 1, count);
        case LParen =>
          ExprFits(r, depth + 1, count, 0);
          assert p == ParseGroup(r, depth + 1, count);
        case _ =>
      }
    }
  }

  lemma {:induction false} LoopFits(left: Expr, ts: seq<Token>, depth: nat, count: nat, minPrec: nat)
    requires count + Size(left) <= ARENA_CAP
    ensures var p := ParseLoop(left, ts, depth, count, minPrec); p.POk? ==> count + Size(p.tree) <= ARENA_CAP
    decreases |ts|, 3
  {
    if Precedence(Head(ts)) > minPrec {
      var p := ParseRight(Head(ts), left, Tail(ts), depth, count);
      if p.POk? { LoopFits(p.tree, p.rest, depth, count, minPrec); }
    }
  }

  lemma {:induction false} SizeAllSnoc(ts: seq<Expr>, t: Expr)
    ensures SizeAll(ts + [t]) == SizeAll(ts) + Size(t)
  {
    if ts == [] {
      assert SizeAll([t]) == Size(t) + SizeAll([]);
    } else {
      AppendTail(ts, [t]);
      SizeAllSnoc(ts[1..], t);
    }
  }

  lemma FlatAllCons(ts: seq<Expr>, base: nat)
    requires ts != []
    ensures var b := base + Size(ts[0]);
            && b >= 1
            && FlatAll(ts, base) == Flat(ts[0], base) + FlatAll(ts[1..], b)
            && Roots(ts, base) == [b - 1] + Roots(ts[1..], b)
  {
    SizePositive(ts[0]);
  }

  lemma {:induction false} FlatAllSnoc(ts: seq<Expr>, t: Expr, base: nat)
    ensures FlatAll(ts + [t], base) == FlatAll(ts, base) + Flat(t, base + SizeAll(ts))
    ensures Roots(ts + [t], base) == Roots(ts, base) + [base + SizeAll(ts) + Size(t) - 1]
  {
    hide Flat, Size;
    if ts == [] {
      assert ts + [t] == [t] && [t][1..] == [];
      SizePositive(t);
      assert Flat(t, base) + [] == Flat(t, base);
    } else {
      AppendTail(ts, [t]);
      var b := base + Size(ts[0]);
      FlatAllSnoc(ts[1..], t, b);
      FlatAllCons(ts, base);
      FlatAllCons(ts + [t], base);
      Regroup(Flat(ts[0], base), FlatAll(ts[1..], b), Flat(t, base + SizeAll(ts)));
      Regroup([base + Size(ts[0]) - 1], Roots(ts[1..], b), [base + SizeAll(ts) + Size(t) - 1]);
    }
  }
}
