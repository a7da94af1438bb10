/** Printing expression trees with as few parentheses as precedence and left associativity
    allow, and reading them back. */
module Printer {
  import opened Token
  import opened Syntax
  import opened Grammar

  /** The derivation of `t` that groups an operator only where its precedence is at most `m`. */
  function Parens(t: Expr, m: nat): Form
    decreases t, m
  {
    match t
    case Lit(v) => FLit(v)
    case Var(n) => FVar(n)
    case Pos(e) => FPos(Parens(e, 3))
    case Neg(e) => FNeg(Parens(e, 3))
    case Call(n, args) => FCall(n, ParensAll(args))
    case Bin(op, l, r) =>
      var p := PrecOf(op);
      if p <= m then FGroup(Parens(t, 0)) else FBin(op, Parens(l, p - 1), Parens(r, p))
  }

  function ParensAll(args: seq<Expr>): (r: seq<Form>)
    ensures |r| == |args|
    decreases args
  {
    if args == [] then [] else [Parens(args[0], 0)] + ParensAll(args[1..])
  }

  function Print(t: Expr): seq<Token>
  {
    Yield(Parens(t, 0))
  }

  lemma {:induction false} ParensDerive(t: Expr, m: nat)
    ensures Derivation(Parens(t, m), m) && Tree(Parens(t, m)) == t
    decreases t, m
  {
    match t {
      case Lit(_) =>
      case Var(_) =>
      case Pos(e) => ParensDerive(e, 3);
      case Neg(e) => ParensDerive(e, 3);
      case Call(_, args) => ParensAllDerive(args);
      case Bin(op, l, r) =>
        if PrecOf(op) <= m {
          ParensDerive(t, 0);
        } else {
          ParensDerive(l, PrecOf(op) - 1);
          ParensDerive(r, PrecOf(op));
        }
    }
  }

  lemma {:induction false} ParensAllDerive(args: seq<Expr>)
    ensures (forall i :: 0 <= i < |args| ==> Derivation(ParensAll(args)[i], 0)) && Trees(ParensAll(args)) == args
    decreases args
  {
    if args != [] {
      ParensDerive(args[0], 0);
      ParensAllDerive(args[1..]);
      assert ParensAll(args)[1..] == ParensAll(args[1..]);
    }
  }

  /** Printing and parsing: a printed tree is rebuilt exactly if it fits the arena, nests no
      deeper than the parser allows and passes no more than sixteen arguments, and is
      rejected otherwise. */
  lemma PrintParse(t: Expr)
    ensures var fits := CallsFit(t) && Nesting(Parens(t, 0)) <= MAX_DEPTH + 1 && Size(t) <= ARENA_CAP;
            var p := ParseFull(Print(t));
            (fits <==> p.POk?) && (fits ==> p.tree == t)
  {
    hide ParseFull, Parens, Derivation, Yield, Nesting;
    ParensDerive(t, 0);
    DerivationRead(Parens(t, 0));
  }
}
