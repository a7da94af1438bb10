/** The Pratt parser as it runs: a position, a depth counter and a growing node arena. */
module Parser {
  import opened Bytes
  import opened Seqs
  import opened Int64
  import opened Token
  import opened Syntax

  class Parser {
    const src: bytes
    var pos: nat
    var depth: nat
    var arena: seq<Node>

    ghost predicate Valid()
      reads this
    {
      pos <= |src| && |arena| <= ARENA_CAP
    }

    /** The tokens not consumed yet. */
    ghost function Rest(): seq<Token>
      requires Valid()
      reads this
    {
      Tokens(src, pos)
    }

    constructor (src: bytes)
      ensures Valid() && this.src == src && pos == 0 && depth == 0 && arena == []
    {
      this.src, pos, depth, arena := src, 0, 0, [];
    }

    method Advance() returns (tok: Token)
      requires Valid()
      modifies `pos
      ensures Valid() && tok == Head(old(Rest())) && Rest() == Tail(old(Rest()))
    {
      LexIsHead(src, pos);
      tok, pos := NextToken(src, pos);
    }

    method Peek() returns (tok: Token)
      requires Valid()
      modifies `pos
      ensures Valid() && pos == old(pos) && tok == Head(Rest())
    {
      LexIsHead(src, pos);
      var saved := pos;
      tok, pos := NextToken(src, pos);
      pos := saved;
    }

    method ArenaAdd(node: Node) returns (err: LinErr, idx: nat)
      requires Valid()
      modifies `arena
      ensures Valid()
      ensures err == if |old(arena)| >= ARENA_CAP then ArenaOom else LinOk
      ensures arena == if err == LinOk then old(arena) + [node] else old(arena)
      ensures err == LinOk ==> idx == |old(arena)|
    {
      if |arena| >= ARENA_CAP { return ArenaOom, 0; }
      idx := |arena|;
      arena := arena + [node];
      err := LinOk;
    }

    /** The outcome of a parse that is specified as `p` and started with `before` and `d`:
        the tree stands in the arena in post-order, right behind what was there. */
    ghost predicate Outcome(p: Parsed, before: seq<Node>, d: nat, err: LinErr, node: nat)
      reads this
    {
      && Valid() && depth == d && before <= arena
      && match p
         case PErr(e) => err == e
         case POk(t, rest) =>
           err == LinOk && Rest() == rest && arena == before + Flat(t, |before|) && node == |arena| - 1
    }

    method ParsePrimary() returns (err: LinErr, node: nat)
      requires Valid()
      modifies this
      ensures Outcome(Syntax.ParsePrimary(old(Rest()), old(depth), old(|arena|)), old(arena), old(depth), err, node)
      decreases |Rest()|, 1
    {
      hide Flat, Size, Tokens, Syntax.ParsePrimaryImpl;
      if depth > MAX_DEPTH { return ParseTooDeep, 0; }
      depth := depth + 1;
      err, node := ParsePrimaryImpl();
      depth := depth - 1;
    }

    method ParsePrimaryImpl() returns (err: LinErr, node: nat)
      requires Valid()
      modifies this
      ensures Outcome(Syntax.ParsePrimaryImpl(old(Rest()), old(depth), old(|arena|)), old(arena), old(depth), err, node)
      decreases |Rest()|, 0
    {
      hide Flat, Size, Tokens, Syntax.ParseCall, Syntax.ParseSigned, Syntax.ParseGroup;
      NoEofInside(src, pos);
      LeafImages(|arena|);
      var tok := Advance();
      match tok {
        case IntLit(v) =>
          err, node := ArenaAdd(Node(TLit, 0, 0, v, []));
        case Ident(name) =>
          var next := Peek();
          if next == LParen {
            next := Advance();
            err, node := ParseCall(name);
          } else {
            err, node := ArenaAdd(Node(TVarRef, 0, 0, 0, name));
          }
        case Plus =>
          err, node := ParseSigned(TPos);
        case Minus =>
          err, node := ParseSigned(TNeg);
        case LParen =>
          err, node := ParseGroup();
        case _ =>
          return UnexpectedPrimary, 0;
      }
    }

    /** The operand of a sign, and the node of the sign itself. */
    method ParseSigned(sign: Tag) returns (err: LinErr, node: nat)
      requires Valid() && (sign == TPos || sign == TNeg)
      modifies this
      ensures Outcome(Syntax.ParseSigned(sign, old(Rest()), old(depth), old(|arena|)), old(arena), old(depth),
                      err, node)
      decreases |Rest()|, 2
    {
      var operand;
      ghost var before, base := arena, |arena|;
      ghost var p := Syntax.ParsePrimary(Rest(), depth, base);
      err, operand := ParsePrimary();
      if err != LinOk { return err, 0; }
      FlatSize(p.tree, base);
      ghost var flat := Flat(p.tree, base);
      var signNode := Node(sign, operand, 0, 0, []);
      JoinSigned(before, base, p.tree, sign, flat, signNode);
      err, node := ArenaAdd(signNode);
    }

    /** The inside of a pair of parentheses. */
    method ParseGroup() returns (err: LinErr, node: nat)
      requires Valid()
      modifies this
      ensures Outcome(Syntax.ParseGroup(old(Rest()), old(depth), old(|arena|)), old(arena), old(depth), err, node)
      decreases |Rest()|, 3
    {
      err, node := ParseExpression(0);
      if err != LinOk { return; }
      var close := Advance();
      if close != RParen { return MissingCloseParen, 0; }
    }

    method ParseExpression(minPrec: nat) returns (err: LinErr, node: nat)
      requires Valid()
      modifies this
      ensures Outcome(ParseExpr(old(Rest()), old(depth), old(|arena|), minPrec), old(arena), old(depth), err, node)
      decreases |Rest()|, 2
    {
      hide Flat, Size, Tokens, Syntax.ParsePrimary, Syntax.ParseRight;
      ghost var before, base, d, start := arena, |arena|, depth, Rest();
      ghost var whole := ParseExpr(start, d, base, minPrec);
      ghost var p := Syntax.ParsePrimary(start, d, base);
      err, node := ParsePrimary();
      if err != LinOk { return err, 0; }
      while true
        invariant Valid() && |Rest()| < |start| && p.POk? && Outcome(p, before, d, LinOk, node)
        invariant ParseLoop(p.tree, p.rest, d, base, minPrec) == whole
        decreases |Rest()|
      {
        var op := Peek();
        var prec := Precedence(op);
        if prec == 0 || prec <= minPrec { break; }
        ghost var left, ts := p.tree, Rest();
        op := Advance();
        p := Syntax.ParseRight(op, left, Rest(), d, base);
        err, node := ParseRight(op, node, before, left);
        if err != LinOk { return err, 0; }
      }
      err := LinOk;
    }

    /** The right operand of `op` and the node over both operands; `left` is the tree of the
        left operand, which stands at the end of the arena. */
    method ParseRight(op: Token, leftNode: nat, ghost before: seq<Node>, ghost left: Expr)
      returns (err: LinErr, node: nat)
      requires Valid() && Precedence(op) > 0
      requires arena == before + Flat(left, |before|) && leftNode == |arena| - 1
      modifies this
      ensures Outcome(Syntax.ParseRight(op, left, old(Rest()), old(depth), |before|), before, old(depth), err, node)
      decreases |Rest()|, 3
    {
      hide Flat, Size, ParseExpr, Tokens, Syntax.ParsePrimary, Syntax.ParseLoop;
      ghost var base := |before|;
      FlatSize(left, base);
      ghost var p := ParseExpr(Rest(), depth, base + Size(left), Precedence(op));
      ghost var a := Flat(left, base);
      var rightNode;
      err, rightNode := ParseExpression(Precedence(op));
      if err != LinOk { return err, 0; }
      ghost var b := Flat(p.tree, base + Size(left));
      FlatSize(p.tree, base + Size(left));
      var binNode := Node(TBin(OpOf(op)), leftNode, rightNode, 0, []);
      JoinBin(before, base, left, p.tree, OpOf(op), a, b, binNode);
      err, node := ArenaAdd(binNode);
    }

    /** One expression and then the end of the source: the arena is the tree in post-order. */
    method ParseFull() returns (err: LinErr, node: nat)
      requires Valid() && pos == 0 && depth == 0 && arena == []
      modifies this
      ensures Valid()
      ensures match Syntax.ParseFull(Tokens(src, 0))
              case PErr(e) => err == e
              case POk(t, _) => err == LinOk && arena == Flat(t, 0) && node == Size(t) - 1
    {
      hide Flat, Size, Tokens, ParseExpr;
      ghost var p := ParseExpr(Rest(), 0, 0, 0);
      err, node := ParseExpression(0);
      if err != LinOk { return err, 0; }
      FlatSize(p.tree, 0);
      assert arena == [] + Flat(p.tree, 0);
      NoEofInside(src, pos);
      HeadOfRest(p.rest);
      var end := Advance();
      if end != Eof { return TrailingTokens, 0; }
    }

    // ---------------------------------------------------------------- calls

    ghost predicate ArgsOutcome(p: ParsedArgs, before: seq<Node>, d: nat, err: LinErr, args: seq<nat>)
      reads this
    {
      && Valid() && depth == d && before <= arena
      && match p
         case AErr(e) => err == e
         case AOk(ts, rest) =>
           err == LinOk && Rest() == rest && arena == before + FlatAll(ts, |before|) && args == Roots(ts, |before|)
    }

    /** The argument list, from the first argument to the closing parenthesis. */
    method ParseArgs() returns (err: LinErr, args: seq<nat>)
      requires Valid()
      modifies this
      ensures ArgsOutcome(Syntax.ParseArgs(old(Rest()), old(depth), old(|arena|), 0), old(arena), old(depth), err, args)
      decreases |Rest()|, 3
    {
      hide Flat, FlatAll, Roots, Size, SizeAll, ParseExpr, Tokens, Syntax.ParseArgs, Prepend;
      ghost var before, base, d, start := arena, |arena|, depth, Rest();
      NoArgs(base);
      ghost var whole := Syntax.ParseArgs(start, d, base, 0);
      ghost var done: seq<Expr> := [];
      args := [];
      PrependNothing(whole);
      while true
        invariant Valid() && depth == d && |Rest()| <= |start|
        invariant arena == before + FlatAll(done, base) && args == Roots(done, base)
        invariant whole == Prepend(done, Syntax.ParseArgs(Rest(), d, base + SizeAll(done), |done|))
        decreases |Rest()|
      {
        PrependStep(done, Rest(), d, base + SizeAll(done), |done|);
        if |args| >= MAX_ARGS { return ArenaOom, []; }
        FlatAllSize(done, base);
        ghost var p := ParseExpr(Rest(), d, base + SizeAll(done), 0);
        ghost var flat := FlatAll(done, base);
        var node;
        err, node := ParseExpression(0);
        if err != LinOk { return err, []; }
        FlatSize(p.tree, base + SizeAll(done));
        JoinArg(before, base, done, p.tree, flat, Flat(p.tree, base + SizeAll(done)));
        args, done := args + [node], done + [p.tree];
        var sep := Peek();
        if sep != Comma && sep != RParen { return MissingCloseParen, []; }
        sep := Advance();
        if sep == RParen { return LinOk, args; }
      }
    }

    /** The linked argument nodes of a call. */
    method AddChain(args: seq<nat>) returns (err: LinErr)
      requires Valid()
      modifies `arena
      ensures Valid() && old(arena) <= arena
      ensures err == if |old(arena)| + |args| > ARENA_CAP then ArenaOom else LinOk
      ensures err == LinOk ==> arena == old(arena) + Chain(args, |old(arena)|)
    {
      var prev := 0;
      var base := |arena|;
      for i := 0 to |args|
        invariant Valid() && |arena| == base + i && base == |old(arena)|
        invariant arena == old(arena) + Chain(args[..i], base)
        invariant prev == if i == 0 then 0 else base + i - 1
      {
        ChainSnoc(args, i, base);
        var idx;
        err, idx := ArenaAdd(Node(TCallArg, args[i], prev, 0, []));
        if err != LinOk { return; }
        prev := idx;
      }
      assert args[..|args|] == args;
      err := LinOk;
    }

    /** A call, from behind its opening parenthesis. */
    method ParseCall(name: bytes) returns (err: LinErr, node: nat)
      requires Valid()
      modifies this
      ensures Outcome(Syntax.ParseCall(name, old(Rest()), old(depth), old(|arena|)), old(arena), old(depth), err, node)
      decreases |Rest()|, 4
    {
      hide Flat, FlatAll, Roots, Chain, Size, SizeAll, Tokens, Syntax.ParseArgs, ParseExpr;
      ghost var before, base := arena, |arena|;
      NoArgs(base);
      var args := [];
      ghost var trees: seq<Expr> := [];
      var tok := Peek();
      if tok != RParen {
        ghost var p := Syntax.ParseArgs(Rest(), depth, base, 0);
        err, args := ParseArgs();
        if err != LinOk { return err, 0; }
        trees := p.trees;
      } else {
        tok := Advance();
      }
      FlatAllSize(trees, base);
      ghost var a, c := FlatAll(trees, base), Chain(args, base + SizeAll(trees));
      err := AddChain(args);
      if err != LinOk { return err, 0; }
      var callNode := Node(TCall, if |args| == 0 then 0 else |arena| - 1, 0, |args| % TWO63, name);
      JoinCall(before, base, name, trees, a, c, callNode);
      err, node := ArenaAdd(callNode);
    }
  }

  lemma HeadOfRest(rest: seq<Token>)
    ensures (forall i :: 0 <= i < |rest| ==> rest[i] != Eof) ==> (Head(rest) == Eof <==> rest == [])
  {
  }

  function Prepend(done: seq<Expr>, p: ParsedArgs): ParsedArgs
  {
    if p.AErr? then p else AOk(done + p.trees, p.rest)
  }

  lemma PrependNothing(p: ParsedArgs)
    ensures Prepend([], p) == p
  {
    if p.AOk? { assert [] + p.trees == p.trees; }
  }

  /** One turn of the argument loop, seen from the arguments parsed so far. */
  lemma PrependStep(done: seq<Expr>, ts: seq<Token>, d: nat, count: nat, n: nat)
    ensures var p := ParseExpr(ts, d, count, 0);
            Prepend(done, Syntax.ParseArgs(ts, d, count, n)) ==
              if n >= MAX_ARGS then AErr(ArenaOom)
              else if p.PErr? then AErr(p.err)
              else if Head(p.rest) == RParen then AOk(done + [p.tree], Tail(p.rest))
              else if Head(p.rest) == Comma then
                Prepend(done + [p.tree], Syntax.ParseArgs(Tail(p.rest), d, count + Size(p.tree), n + 1))
              else AErr(MissingCloseParen)
  {
    hide ParseExpr, Size;
    var p := ParseExpr(ts, d, count, 0);
    if n < MAX_ARGS && p.POk? && Head(p.rest) == Comma {
      var more := Syntax.ParseArgs(Tail(p.rest), d, count + Size(p.tree), n + 1);
      if more.AOk? { Regroup(done, [p.tree], more.trees); }
    }
  }

  lemma NoArgs(base: nat)
    ensures FlatAll([], base) == [] && Roots([], base) == [] && SizeAll([]) == 0
  {
  }

  lemma JoinArg(before: seq<Node>, base: nat, done: seq<Expr>, t: Expr, a: seq<Node>, b: seq<Node>)
    requires a == FlatAll(done, base) && b == Flat(t, base + SizeAll(done))
    ensures before + a + b == before + FlatAll(done + [t], base)
    ensures SizeAll(done + [t]) == SizeAll(done) + Size(t)
    ensures Roots(done + [t], base) == Roots(done, base) + [base + SizeAll(done) + Size(t) - 1]
  {
    FlatAllSnoc(done, t, base);
    SizeAllSnoc(done, t);
    Regroup(before, a, b);
  }

  lemma ChainSnoc(args: seq<nat>, i: nat, base: nat)
    requires i < |args|
    ensures Chain(args[..i + 1], base)
         == Chain(args[..i], base) + [Node(TCallArg, args[i], if i == 0 then 0 else base + i - 1, 0, [])]
  {
    assert args[..i + 1][..i] == args[..i];
  }

  lemma JoinCall(before: seq<Node>, base: nat, name: bytes, trees: seq<Expr>, a: seq<Node>, c: seq<Node>, node: Node)
    requires base == |before| && a == FlatAll(trees, base) && c == Chain(Roots(trees, base), base + SizeAll(trees))
    requires node == Node(TCall, if trees == [] then 0 else base + SizeAll(trees) + |trees| - 1, 0,
                          |trees| % TWO63, name)
    ensures before + a + c + [node] == before + Flat(Call(name, trees), base)
  {
    RegroupThree(before, a, c, [node]);
  }

  /** Two operands and the node over them are the arena image of the binary expression. */
  lemma JoinBin(before: seq<Node>, base: nat, l: Expr, r: Expr, op: BinOp, a: seq<Node>, b: seq<Node>, node: Node)
    requires base == |before| && a == Flat(l, base) && b == Flat(r, base + Size(l))
    requires node == Node(TBin(op), base + Size(l) - 1, base + Size(l) + Size(r) - 1, 0, [])
    ensures before + a + b + [node] == before + Flat(Bin(op, l, r), base)
  {
    FlatBin(l, r, op, base, a, b, node);
    RegroupThree(before, a, b, [node]);
  }

  lemma JoinSigned(before: seq<Node>, base: nat, e: Expr, tag: Tag, a: seq<Node>, node: Node)
    requires base == |before| && (tag == TPos || tag == TNeg) && a == Flat(e, base)
    requires node == Node(tag, base + Size(e) - 1, 0, 0, [])
    ensures before + a + [node] == before + Flat(Signed(tag, e), base)
  {
    Regroup(before, a, [node]);
  }
}
