/** The language of the parser by nonterminals over the tokens themselves, without precedence
    numbers: comparisons of sums of products of primaries, each grouping to the left. */
module Nonterminals {
  import opened Bytes
  import opened Seqs
  import opened Int64
  import opened Token
  import opened Syntax
  import opened Grammar

  // ---------------------------------------------------------------- the sentences

  ghost predicate CompareSign(tok: Token, op: BinOp)
  {
    || (tok == EqEq && op == OpEq) || (tok == NotEq && op == OpNeq)
    || (tok == Lt && op == OpLt) || (tok == Lte && op == OpLte)
    || (tok == Gt && op == OpGt) || (tok == Gte && op == OpGte)
  }

  ghost predicate SumSign(tok: Token, op: BinOp)
  {
    (tok == Plus && op == OpAdd) || (tok == Minus && op == OpSub)
  }

  ghost predicate ProductSign(tok: Token, op: BinOp)
  {
    (tok == Mul && op == OpMul) || (tok == Div && op == OpDiv) || (tok == Mod && op == OpMod)
  }

  /** Comparison ::= Comparison (== | != | < | <= | > | >=) Sum | Sum; the tokens stand for the tree
      with at most `d` primaries inside each other. */
  ghost predicate Comparison(ts: seq<Token>, t: Expr, d: nat)
    decreases |ts|, 3
  {
    || Sum(ts, t, d)
    || (t.Bin? && exists i :: 0 <= i < |ts| && CompareSign(ts[i], t.op)
                              && Comparison(ts[..i], t.left, d) && Sum(ts[i + 1..], t.right, d))
  }

  /** Sum ::= Sum (+ | -) Product | Product */
  ghost predicate Sum(ts: seq<Token>, t: Expr, d: nat)
    decreases |ts|, 2
  {
    || Product(ts, t, d)
    || (t.Bin? && exists i :: 0 <= i < |ts| && SumSign(ts[i], t.op)
                              && Sum(ts[..i], t.left, d) && Product(ts[i + 1..], t.right, d))
  }

  /** Product ::= Product (* | / | %) Primary | Primary */
  ghost predicate Product(ts: seq<Token>, t: Expr, d: nat)
    decreases |ts|, 1
  {
    || Primary(ts, t, d)
    || (t.Bin? && exists i :: 0 <= i < |ts| && ProductSign(ts[i], t.op)
                              && Product(ts[..i], t.left, d) && Primary(ts[i + 1..], t.right, d))
  }

  /** Primary ::= number | name | + Primary | - Primary | ( Comparison ) | name ( Arguments ) */
  ghost predicate Primary(ts: seq<Token>, t: Expr, d: nat)
    decreases |ts|, 0
  {
    && d > 0 && ts != []
    && match ts[0]
       case IntLit(v) => |ts| == 1 && t == Lit(v)
       case Ident(n) =>
         || (|ts| == 1 && t == Var(n))
         || (|ts| >= 3 && ts[1] == LParen && ts[|ts| - 1] == RParen
             && t.Call? && t.name == n && Arguments(ts[2..|ts| - 1], t.args, d - 1))
       case Plus => t.Pos? && Primary(ts[1..], t.arg, d - 1)
       case Minus => t.Neg? && Primary(ts[1..], t.arg, d - 1)
       case LParen => |ts| >= 2 && ts[|ts| - 1] == RParen && Comparison(ts[1..|ts| - 1], t, d - 1)
       case _ => false
  }

  /** Arguments ::= nothing | Comparison | Comparison , Arguments, where nothing follows no comma */
  ghost predicate Arguments(ts: seq<Token>, args: seq<Expr>, d: nat)
    decreases |ts|, 4
  {
    if args == [] then ts == []
    else if |args| == 1 then Comparison(ts, args[0], d)
    else exists i :: 0 <= i < |ts| && ts[i] == Comma
                     && Comparison(ts[..i], args[0], d) && Arguments(ts[i + 1..], args[1..], d)
  }

  // ---------------------------------------------------------------- derivations are sentences

  lemma SignLevels(tok: Token, op: BinOp)
    ensures CompareSign(tok, op) <==> tok == TokenOf(op) && PrecOf(op) == 1
    ensures SumSign(tok, op) <==> tok == TokenOf(op) && PrecOf(op) == 2
    ensures ProductSign(tok, op) <==> tok == TokenOf(op) && PrecOf(op) == 3
  {
  }

  lemma Cut(a: seq<Token>, tok: Token, b: seq<Token>)
    ensures var ts := a + [tok] + b; ts[|a|] == tok && ts[..|a|] == a && ts[|a| + 1..] == b
  {
  }

  lemma Inside(f: seq<Token>, inner: seq<Token>, last: Token)
    ensures var ts := f + inner + [last];
            |ts| == |f| + |inner| + 1 && ts[..|f|] == f && ts[|ts| - 1] == last && ts[|f|..|ts| - 1] == inner
  {
  }

  lemma {:induction false} FormComparison(f: Form, d: nat)
    requires Derivation(f, 0) && Nesting(f) <= d
    ensures Comparison(Yield(f), Tree(f), d)
    decreases f, 4
  {
    hide Yield, Tree, Derivation, Sum;
    if f.FBin? && PrecOf(f.op) == 1 {
      BinForm(f, 0, d);
      Cut(Yield(f.left), TokenOf(f.op), Yield(f.right));
      SignLevels(TokenOf(f.op), f.op);
      FormComparison(f.left, d);
      FormSum(f.right, d);
    } else {
      Tighter(f, 0);
      FormSum(f, d);
    }
  }

  lemma {:induction false} FormSum(f: Form, d: nat)
    requires Derivation(f, 1) && Nesting(f) <= d
    ensures Sum(Yield(f), Tree(f), d)
    decreases f, 3
  {
    hide Yield, Tree, Derivation, Product;
    if f.FBin? && PrecOf(f.op) == 2 {
      BinForm(f, 1, d);
      Cut(Yield(f.left), TokenOf(f.op), Yield(f.right));
      SignLevels(TokenOf(f.op), f.op);
      FormSum(f.left, d);
      FormProduct(f.right, d);
    } else {
      Tighter(f, 1);
      FormProduct(f, d);
    }
  }

  lemma {:induction false} FormProduct(f: Form, d: nat)
    requires Derivation(f, 2) && Nesting(f) <= d
    ensures Product(Yield(f), Tree(f), d)
    decreases f, 2
  {
    hide Yield, Tree, Derivation, Primary;
    if f.FBin? && PrecOf(f.op) == 3 {
      BinForm(f, 2, d);
      Cut(Yield(f.left), TokenOf(f.op), Yield(f.right));
      SignLevels(TokenOf(f.op), f.op);
      FormProduct(f.left, d);
      FormPrimary(f.right, d);
    } else {
      Tighter(f, 2);
      FormPrimary(f, d);
    }
  }

  lemma BinForm(f: Form, m: nat, d: nat)
    requires f.FBin? && Derivation(f, m) && Nesting(f) <= d
    ensures Derivation(f.left, PrecOf(f.op) - 1) && Derivation(f.right, PrecOf(f.op))
    ensures Nesting(f.left) <= d && Nesting(f.right) <= d
    ensures Yield(f) == Yield(f.left) + [TokenOf(f.op)] + Yield(f.right)
    ensures Tree(f) == Bin(f.op, Tree(f.left), Tree(f.right))
  {
  }

  lemma Tighter(f: Form, m: nat)
    requires Derivation(f, m) && (f.FBin? ==> PrecOf(f.op) != m + 1)
    ensures Derivation(f, m + 1)
  {
  }

  lemma {:induction false} FormPrimary(f: Form, d: nat)
    requires Derivation(f, 3) && Nesting(f) <= d
    ensures Primary(Yield(f), Tree(f), d)
    decreases f, 1
  {
    hide Comparison, Arguments, YieldAll, Primary;
    match f {
      case FLit(v) => IsLiteral(v, d);
      case FVar(n) => IsName(n, d);
      case FPos(e) =>
        FormPrimary(e, d - 1);
        IsSigned(Yield(e), Tree(e), d);
      case FNeg(e) =>
        FormPrimary(e, d - 1);
        IsSigned(Yield(e), Tree(e), d);
      case FGroup(e) =>
        FormComparison(e, d - 1);
        IsGroup(Yield(e), Tree(e), d);
      case FBin(op, _, _) => PrecRange(op);
      case FCall(n, args) =>
        FormArguments(args, d - 1);
        IsCall(n, YieldAll(args), Trees(args), d);
    }
  }

  lemma IsLiteral(v: i64, d: nat)
    requires d > 0
    ensures Primary([IntLit(v)], Lit(v), d)
  {
  }

  lemma IsName(n: bytes, d: nat)
    requires d > 0
    ensures Primary([Ident(n)], Var(n), d)
  {
  }

  lemma IsSigned(ts: seq<Token>, t: Expr, d: nat)
    requires d > 0 && Primary(ts, t, d - 1)
    ensures Primary([Plus] + ts, Pos(t), d) && Primary([Minus] + ts, Neg(t), d)
  {
    assert ([Plus] + ts)[1..] == ts && ([Minus] + ts)[1..] == ts;
  }

  lemma IsGroup(ts: seq<Token>, t: Expr, d: nat)
    requires d > 0 && Comparison(ts, t, d - 1)
    ensures Primary([LParen] + ts + [RParen], t, d)
  {
    hide Comparison, Arguments;
    Inside([LParen], ts, RParen);
  }

  lemma IsCall(n: bytes, ts: seq<Token>, args: seq<Expr>, d: nat)
    requires d > 0 && Arguments(ts, args, d - 1)
    ensures Primary([Ident(n), LParen] + ts + [RParen], Call(n, args), d)
  {
    hide Comparison, Arguments;
    Inside([Ident(n), LParen], ts, RParen);
  }

  lemma {:induction false} FormArguments(args: seq<Form>, d: nat)
    requires (forall i :: 0 <= i < |args| ==> Derivation(args[i], 0)) && NestingAll(args) <= d
    ensures Arguments(YieldAll(args), Trees(args), d)
    decreases args, 0
  {
    hide Comparison, Yield, Tree, Derivation, Nesting;
    if args != [] {
      FormComparison(args[0], d);
      assert Trees(args)[1..] == Trees(args[1..]);
      if |args| > 1 {
        FormArguments(args[1..], d);
        Cut(Yield(args[0]), Comma, YieldAll(args[1..]));
      }
    }
  }

  // ---------------------------------------------------------------- sentences are derivations

  /** f derives the tokens for the tree. */
  ghost predicate Derived(f: Form, ts: seq<Token>, t: Expr, d: nat, m: nat)
  {
    Derivation(f, m) && Yield(f) == ts && Tree(f) == t && Nesting(f) <= d
  }

  lemma Join(l: Form, r: Form, ts: seq<Token>, t: Expr, d: nat, i: nat) returns (f: Form)
    requires t.Bin? && i < |ts| && ts[i] == TokenOf(t.op) && PrecOf(t.op) > 0
    requires Derived(l, ts[..i], t.left, d, PrecOf(t.op) - 1) && Derived(r, ts[i + 1..], t.right, d, PrecOf(t.op))
    ensures Derived(f, ts, t, d, PrecOf(t.op) - 1)
  {
    f := FBin(t.op, l, r);
    assert ts == ts[..i] + [ts[i]] + ts[i + 1..];
  }

  lemma Looser(f: Form, ts: seq<Token>, t: Expr, d: nat, m: nat)
    requires Derived(f, ts, t, d, m + 1)
    ensures Derived(f, ts, t, d, m)
  {
  }

  lemma {:induction false} ComparisonForm(ts: seq<Token>, t: Expr, d: nat) returns (f: Form)
    requires Comparison(ts, t, d)
    ensures Derived(f, ts, t, d, 0)
    decreases |ts|, 3
  {
    hide Sum, Derived;
    if Sum(ts, t, d) {
      f := SumForm(ts, t, d);
      Looser(f, ts, t, d, 0);
    } else {
      var i :| 0 <= i < |ts| && CompareSign(ts[i], t.op)
               && Comparison(ts[..i], t.left, d) && Sum(ts[i + 1..], t.right, d);
      SignLevels(ts[i], t.op);
      var l := ComparisonForm(ts[..i], t.left, d);
      var r := SumForm(ts[i + 1..], t.right, d);
      f := Join(l, r, ts, t, d, i);
    }
  }

  lemma {:induction false} SumForm(ts: seq<Token>, t: Expr, d: nat) returns (f: Form)
    requires Sum(ts, t, d)
    ensures Derived(f, ts, t, d, 1)
    decreases |ts|, 2
  {
    hide Product, Derived;
    if Product(ts, t, d) {
      f := ProductForm(ts, t, d);
      Looser(f, ts, t, d, 1);
    } else {
      var i :| 0 <= i < |ts| && SumSign(ts[i], t.op) && Sum(ts[..i], t.left, d) && Product(ts[i + 1..], t.right, d);
      SignLevels(ts[i], t.op);
      var l := SumForm(ts[..i], t.left, d);
      var r := ProductForm(ts[i + 1..], t.right, d);
      f := Join(l, r, ts, t, d, i);
    }
  }

  lemma {:induction false} ProductForm(ts: seq<Token>, t: Expr, d: nat) returns (f: Form)
    requires Product(ts, t, d)
    ensures Derived(f, ts, t, d, 2)
    decreases |ts|, 1
  {
    hide Primary, Derived;
    if Primary(ts, t, d) {
      f := PrimaryForm(ts, t, d);
      Looser(f, ts, t, d, 2);
    } else {
      var i :| 0 <= i < |ts| && ProductSign(ts[i], t.op)
               && Product(ts[..i], t.left, d) && Primary(ts[i + 1..], t.right, d);
      SignLevels(ts[i], t.op);
      var l := ProductForm(ts[..i], t.left, d);
      var r := PrimaryForm(ts[i + 1..], t.right, d);
      f := Join(l, r, ts, t, d, i);
    }
  }

  lemma {:induction false} PrimaryForm(ts: seq<Token>, t: Expr, d: nat) returns (f: Form)
    requires Primary(ts, t, d)
    ensures Derived(f, ts, t, d, 3)
    decreases |ts|, 0
  {
    hide Comparison, Arguments, YieldAll, NestingAll, Derived;
    match ts[0] {
      case IntLit(v) =>
        f := FLit(v);
        AtomDerived(f, ts, t, d);
      case Ident(n) =>
        if |ts| == 1 {
          f := FVar(n);
          AtomDerived(f, ts, t, d);
        } else {
          var args := ArgumentForms(ts[2..|ts| - 1], t.args, d - 1);
          f := CallDerived(n, args, ts, t, d);
        }
      case Plus =>
        var e := PrimaryForm(ts[1..], t.arg, d - 1);
        f := FPos(e);
        SignDerived(e, f, ts, t, d);
      case Minus =>
        var e := PrimaryForm(ts[1..], t.arg, d - 1);
        f := FNeg(e);
        SignDerived(e, f, ts, t, d);
      case LParen =>
        var e := ComparisonForm(ts[1..|ts| - 1], t, d - 1);
        f := GroupDerived(e, ts, t, d);
    }
  }

  lemma AtomDerived(f: Form, ts: seq<Token>, t: Expr, d: nat)
    requires d > 0 && |ts| == 1 && (f.FLit? || f.FVar?) && Yield(f) == [ts[0]] && Tree(f) == t
    ensures Derived(f, ts, t, d, 3)
  {
  }

  lemma SignDerived(e: Form, f: Form, ts: seq<Token>, t: Expr, d: nat)
    requires d > 0 && ts != []
    requires (ts[0] == Plus && f == FPos(e) && t.Pos?) || (ts[0] == Minus && f == FNeg(e) && t.Neg?)
    requires Derived(e, ts[1..], t.arg, d - 1, 3)
    ensures Derived(f, ts, t, d, 3)
  {
    HeadTail(ts);
  }

  lemma GroupDerived(e: Form, ts: seq<Token>, t: Expr, d: nat) returns (f: Form)
    requires d > 0 && |ts| >= 2 && ts[0] == LParen && ts[|ts| - 1] == RParen
    requires Derived(e, ts[1..|ts| - 1], t, d - 1, 0)
    ensures Derived(f, ts, t, d, 3)
  {
    f := FGroup(e);
    Enclosed(ts, [LParen], ts[1..|ts| - 1], RParen);
  }

  lemma CallDerived(n: bytes, args: seq<Form>, ts: seq<Token>, t: Expr, d: nat) returns (f: Form)
    requires d > 0 && |ts| >= 3 && ts[0] == Ident(n) && ts[1] == LParen && ts[|ts| - 1] == RParen
    requires t.Call? && t.name == n && Trees(args) == t.args && YieldAll(args) == ts[2..|ts| - 1]
    requires NestingAll(args) < d && forall i :: 0 <= i < |args| ==> Derivation(args[i], 0)
    ensures Derived(f, ts, t, d, 3)
  {
    hide YieldAll, Trees, NestingAll;
    f := FCall(n, args);
    Enclosed(ts, [Ident(n), LParen], ts[2..|ts| - 1], RParen);
  }

  lemma Enclosed(ts: seq<Token>, front: seq<Token>, inner: seq<Token>, last: Token)
    requires |ts| == |front| + |inner| + 1 && ts[..|front|] == front && ts[|front|..|ts| - 1] == inner
    requires ts[|ts| - 1] == last
    ensures ts == front + inner + [last]
  {
  }

  lemma {:induction false} ArgumentForms(ts: seq<Token>, args: seq<Expr>, d: nat) returns (fs: seq<Form>)
    requires Arguments(ts, args, d)
    ensures forall i :: 0 <= i < |fs| ==> Derivation(fs[i], 0)
    ensures YieldAll(fs) == ts && Trees(fs) == args && NestingAll(fs) <= d
    decreases |ts|, 5
  {
    hide Comparison, Yield, Tree, Derivation, Nesting, YieldAll, Trees, NestingAll, Arguments;
    NoForms([]);
    if args == [] {
      fs := [];
      NoArguments(ts, d);
    } else if |args| == 1 {
      assert args == [args[0]] + [];
      var f := OneArgument(ts, args, d);
      fs := [f] + [];
      ConsForms(f, []);
    } else {
      var i := FirstComma(ts, args, d);
      var f := ComparisonForm(ts[..i], args[0], d);
      var more := ArgumentForms(ts[i + 1..], args[1..], d);
      fs := [f] + more;
      ConsForms(f, more);
      HeadTail(args);
      CutAt(ts, i);
    }
  }

  lemma NoArguments(ts: seq<Token>, d: nat)
    requires Arguments(ts, [], d)
    ensures ts == []
  {
  }

  lemma {:induction false} OneArgument(ts: seq<Token>, args: seq<Expr>, d: nat) returns (f: Form)
    requires |args| == 1 && Arguments(ts, args, d)
    ensures Derivation(f, 0) && Yield(f) == ts && Tree(f) == args[0] && Nesting(f) <= d
    decreases |ts|, 4
  {
    hide Comparison, Yield, Tree, Derivation, Nesting;
    f := ComparisonForm(ts, args[0], d);
  }

  lemma FirstComma(ts: seq<Token>, args: seq<Expr>, d: nat) returns (i: nat)
    requires |args| > 1 && Arguments(ts, args, d)
    ensures i < |ts| && ts[i] == Comma && Comparison(ts[..i], args[0], d) && Arguments(ts[i + 1..], args[1..], d)
  {
    hide Comparison;
    i :| 0 <= i < |ts| && ts[i] == Comma
         && Comparison(ts[..i], args[0], d) && Arguments(ts[i + 1..], args[1..], d);
  }

  lemma CutAt(ts: seq<Token>, i: nat)
    requires i < |ts|
    ensures ts == ts[..i] + [ts[i]] + ts[i + 1..]
  {
  }

  lemma NoForms(fs: seq<Form>)
    requires fs == []
    ensures YieldAll(fs) == [] && Trees(fs) == [] && NestingAll(fs) == 0
  {
  }

  lemma ConsForms(f: Form, more: seq<Form>)
    ensures var fs := [f] + more;
            && YieldAll(fs) == (if more == [] then Yield(f) else Yield(f) + [Comma] + YieldAll(more))
            && Trees(fs) == [Tree(f)] + Trees(more) && |Trees(more)| == |more|
            && NestingAll(fs) == Max(Nesting(f), NestingAll(more))
  {
    hide Yield, Tree, Nesting;
    assert ([f] + more)[1..] == more;
  }

  // ---------------------------------------------------------------- acceptance

  /** The limits of the parser on trees: at most 256 nodes and 16 arguments to a call. */
  ghost predicate TreeFits(t: Expr)
  {
    Size(t) <= 256 && ShortCalls(t)
  }

  predicate ShortCalls(t: Expr)
  {
    match t
    case Lit(_) => true
    case Var(_) => true
    case Pos(e) => ShortCalls(e)
    case Neg(e) => ShortCalls(e)
    case Bin(_, l, r) => ShortCalls(l) && ShortCalls(r)
    case Call(_, args) => |args| <= 16 && forall i :: 0 <= i < |args| ==> ShortCalls(args[i])
  }

  lemma {:induction false} ShortIsFit(t: Expr)
    ensures ShortCalls(t) <==> CallsFit(t)
  {
    match t {
      case Lit(_) =>
      case Var(_) =>
      case Pos(e) => ShortIsFit(e);
      case Neg(e) => ShortIsFit(e);
      case Bin(_, l, r) =>
        ShortIsFit(l);
        ShortIsFit(r);
      case Call(_, args) =>
        forall i | 0 <= i < |args| ensures ShortCalls(args[i]) <==> CallsFit(args[i]) {
          ShortIsFit(args[i]);
        }
    }
  }

  /** The sentences of the language with at most 65 primaries inside each other, and their trees. */
  ghost predicate Sentence(ts: seq<Token>, t: Expr)
  {
    Comparison(ts, t, 65) && TreeFits(t)
  }

  /** For every token list: the parser accepts exactly the sentences, each to its one tree. */
  lemma AcceptsSentences(ts: seq<Token>)
    ensures ParseFull(ts).POk? <==> exists t :: Sentence(ts, t)
    ensures forall t :: Sentence(ts, t) ==> ParseFull(ts) == POk(t, [])
  {
    hide ParseFull, Comparison, Derivation, Yield, Tree, Nesting;
    forall t | Sentence(ts, t) ensures ParseFull(ts) == POk(t, []) {
      var f := ComparisonForm(ts, t, 65);
      ShortIsFit(t);
      DerivationRead(f);
    }
    if ParseFull(ts).POk? {
      var f := FullSound(ts);
      DerivationRead(f);
      FormComparison(f, 65);
      ShortIsFit(Tree(f));
      assert Sentence(ts, Tree(f));
    }
  }
}
