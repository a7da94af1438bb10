/** The grammar as a relation: derivations with explicit parentheses, the tokens they yield and
    the trees they stand for.  The parser accepts exactly what is derivable within its limits. */
module Grammar {
  import opened Bytes
  import opened Seqs
  import opened Int64
  import opened Token
  import opened Syntax

  datatype Form =
    | FLit(val: i64)
    | FVar(name: bytes)
    | FPos(arg: Form)
    | FNeg(arg: Form)
    | FGroup(inner: Form)
    | FBin(op: BinOp, left: Form, right: Form)
    | FCall(name: bytes, args: seq<Form>)

  /** A derivation where only operators of a precedence above `m` may stand without parentheses:
      the left operand binds at least as tightly as its operator and the right one more tightly,
      and a sign takes a primary. */
  predicate Derivation(f: Form, m: nat)
  {
    match f
    case FLit(_) => true
    case FVar(_) => true
    case FPos(e) => Derivation(e, 3)
    case FNeg(e) => Derivation(e, 3)
    case FGroup(e) => Derivation(e, 0)
    case FBin(op, l, r) => PrecOf(op) > m && Derivation(l, PrecOf(op) - 1) && Derivation(r, PrecOf(op))
    case FCall(_, args) => forall i :: 0 <= i < |args| ==> Derivation(args[i], 0)
  }

  function Yield(f: Form): seq<Token>
  {
    match f
    case FLit(v) => [IntLit(v)]
    case FVar(n) => [Ident(n)]
    case FPos(e) => [Plus] + Yield(e)
    case FNeg(e) => [Minus] + Yield(e)
    case FGroup(e) => [LParen] + Yield(e) + [RParen]
    case FBin(op, l, r) => Yield(l) + [TokenOf(op)] + Yield(r)
    case FCall(n, args) => [Ident(n), LParen] + YieldAll(args) + [RParen]
  }

  function YieldAll(args: seq<Form>): seq<Token>
  {
    if args == [] then []
    else if |args| == 1 then Yield(args[0])
    else Yield(args[0]) + [Comma] + YieldAll(args[1..])
  }

  /** Parentheses leave no trace. */
  function Tree(f: Form): Expr
  {
    match f
    case FLit(v) => Lit(v)
    case FVar(n) => Var(n)
    case FPos(e) => Pos(Tree(e))
    case FNeg(e) => Neg(Tree(e))
    case FGroup(e) => Tree(e)
    case FBin(op, l, r) => Bin(op, Tree(l), Tree(r))
    case FCall(n, args) => Call(n, Trees(args))
  }

  function Trees(args: seq<Form>): (r: seq<Expr>)
    ensures |r| == |args|
  {
    if args == [] then [] else [Tree(args[0])] + Trees(args[1..])
  }

  // ---------------------------------------------------------------- limits

  function Max(a: nat, b: nat): nat { if a < b then b else a }

  /** How deeply primaries nest. */
  function Nesting(f: Form): nat
  {
    match f
    case FLit(_) => 1
    case FVar(_) => 1
    case FPos(e) => 1 + Nesting(e)
    case FNeg(e) => 1 + Nesting(e)
    case FGroup(e) => 1 + Nesting(e)
    case FBin(_, l, r) => Max(Nesting(l), Nesting(r))
    case FCall(_, args) => 1 + NestingAll(args)
  }

  function NestingAll(args: seq<Form>): nat
  {
    if args == [] then 0 else Max(Nesting(args[0]), NestingAll(args[1..]))
  }

  /** No call has more arguments than the parser takes. */
  predicate CallsFit(t: Expr)
  {
    match t
    case Lit(_) => true
    case Var(_) => true
    case Pos(e) => CallsFit(e)
    case Neg(e) => CallsFit(e)
    case Bin(_, l, r) => CallsFit(l) && CallsFit(r)
    case Call(_, args) => |args| <= MAX_ARGS && forall i :: 0 <= i < |args| ==> CallsFit(args[i])
  }

  /** The three limits, with `depth` primaries around it and `count` nodes in front of it. */
  ghost predicate Room(f: Form, depth: nat, count: nat)
  {
    CallsFit(Tree(f)) && depth + Nesting(f) <= MAX_DEPTH + 1 && count + Size(Tree(f)) <= ARENA_CAP
  }

  ghost predicate Fits(f: Form)
  {
    Room(f, 0, 0)
  }

  // ---------------------------------------------------------------- one turn of each parsing function

  lemma HeadTailOf(x: Token, ts: seq<Token>)
    ensures Head([x] + ts) == x && Tail([x] + ts) == ts
  {
    assert ([x] + ts)[1..] == ts;
  }

  lemma PrecRange(op: BinOp)
    ensures 1 <= PrecOf(op) <= 3
  {
  }

  lemma LoopStops(t: Expr, rest: seq<Token>, depth: nat, count: nat, minPrec: nat)
    requires Precedence(Head(rest)) <= minPrec
    ensures ParseLoop(t, rest, depth, count, minPrec) == POk(t, rest)
  {
  }

  lemma LoopTurns(l: Expr, tok: Token, ts: seq<Token>, depth: nat, count: nat, minPrec: nat)
    requires Precedence(tok) > minPrec
    ensures var p := ParseExpr(ts, depth, count + Size(l), Precedence(tok));
            ParseLoop(l, [tok] + ts, depth, count, minPrec) ==
              if p.PErr? then p
              else if count + Size(l) + Size(p.tree) >= ARENA_CAP then PErr(ArenaOom)
              else ParseLoop(Bin(OpOf(tok), l, p.tree), p.rest, depth, count, minPrec)
  {
    hide ParseExpr, Size;
    HeadTailOf(tok, ts);
  }

  lemma SignTurn(sign: Tag, tok: Token, ts: seq<Token>, depth: nat, count: nat)
    requires (sign == TPos && tok == Plus) || (sign == TNeg && tok == Minus)
    ensures ParsePrimaryImpl([tok] + ts, depth, count) == ParseSigned(sign, ts, depth, count)
  {
    hide ParseSigned;
    HeadTailOf(tok, ts);
  }

  lemma GroupTurn(ts: seq<Token>, depth: nat, count: nat)
    ensures ParsePrimaryImpl([LParen] + ts, depth, count) == ParseGroup(ts, depth, count)
  {
    hide ParseGroup;
    HeadTailOf(LParen, ts);
  }

  lemma CallTurn(n: bytes, ts: seq<Token>, depth: nat, count: nat)
    ensures ParsePrimaryImpl([Ident(n)] + ([LParen] + ts), depth, count) == ParseCall(n, ts, depth, count)
  {
    hide ParseCall;
    HeadTailOf(Ident(n), [LParen] + ts);
    HeadTailOf(LParen, ts);
  }

  lemma ArgsTurn(ts: seq<Token>, depth: nat, count: nat, n: nat)
    ensures ParseArgs(ts, depth, count, n) ==
              if n >= MAX_ARGS then AErr(ArenaOom)
              else
                var p := ParseExpr(ts, depth, count, 0);
                if p.PErr? then AErr(p.err)
                else if Head(p.rest) == RParen then AOk([p.tree], Tail(p.rest))
                else if Head(p.rest) == Comma then
                  var more := ParseArgs(Tail(p.rest), depth, count + Size(p.tree), n + 1);
                  if more.AErr? then more else AOk([p.tree] + more.trees, more.rest)
                else AErr(MissingCloseParen)
  {
    hide ParseExpr, Size;
  }

  lemma FirstArg(f: Form, more: seq<Form>)
    ensures YieldAll([f] + more) == if more == [] then Yield(f) else Yield(f) + [Comma] + YieldAll(more)
    ensures Trees([f] + more) == [Tree(f)] + Trees(more)
    ensures more == [] ==> Trees(more) == []
  {
    hide Yield, Tree;
    assert ([f] + more)[1..] == more;
  }

  // ---------------------------------------------------------------- derivations are read back

  /** What may follow a derivation for `m`. */
  predicate Follows(rest: seq<Token>, m: nat)
  {
    Head(rest) != LParen && Precedence(Head(rest)) <= m + 1
  }

  /** The tree, or some error, depending on the limits. */
  ghost predicate Outcome(p: Parsed, fits: bool, t: Expr, rest: seq<Token>)
  {
    if fits then p == POk(t, rest) else p.PErr?
  }

  /** Parsing the yield of a derivation continues the precedence loop with its tree as left operand,
      or fails if there is no room for it. */
  lemma {:induction false} ExprRead(f: Form, m: nat, rest: seq<Token>, depth: nat, count: nat, minPrec: nat)
    requires Derivation(f, m) && minPrec <= m && Follows(rest, m)
    ensures var p := ParseExpr(Yield(f) + rest, depth, count, minPrec);
            if Room(f, depth, count) then p == ParseLoop(Tree(f), rest, depth, count, minPrec) else p.PErr?
    decreases f, 3
  {
    hide ParseLoop, ParsePrimary, Yield, Room, Derivation, Tree;
    if f.FBin? {
      BinRead(f, m, rest, depth, count, minPrec);
    } else {
      AtomRead(f, m, rest, depth, count);
    }
  }

  lemma {:induction false} BinRead(f: Form, m: nat, rest: seq<Token>, depth: nat, count: nat, minPrec: nat)
    requires f.FBin? && Derivation(f, m) && minPrec <= m && Follows(rest, m)
    ensures var p := ParseExpr(Yield(f) + rest, depth, count, minPrec);
            if Room(f, depth, count) then p == ParseLoop(Tree(f), rest, depth, count, minPrec) else p.PErr?
    decreases f, 2
  {
    hide ParseExpr, ParseLoop, Yield, Room, Derivation, Tree, Size;
    var FBin(op, l, r) := f;
    var p, tok := PrecOf(op), TokenOf(op);
    BinParts(op, l, r, m);
    BinRoom(op, l, r, depth, count);
    RegroupFour(Yield(l), tok, Yield(r), rest);
    HeadTailOf(tok, Yield(r) + rest);
    ExprRead(l, p - 1, [tok] + (Yield(r) + rest), depth, count, minPrec);
    if Room(l, depth, count) {
      var size := count + Size(Tree(l));
      ExprRead(r, p, rest, depth, size, p);
      if Room(r, depth, size) { LoopStops(Tree(r), rest, depth, size, p); }
      LoopTurns(Tree(l), tok, Yield(r) + rest, depth, count, minPrec);
    }
  }

  lemma BinParts(op: BinOp, l: Form, r: Form, m: nat)
    requires Derivation(FBin(op, l, r), m)
    ensures PrecOf(op) > m && Derivation(l, PrecOf(op) - 1) && Derivation(r, PrecOf(op))
    ensures Yield(FBin(op, l, r)) == Yield(l) + [TokenOf(op)] + Yield(r)
    ensures Tree(FBin(op, l, r)) == Bin(op, Tree(l), Tree(r))
  {
  }

  lemma BinRoom(op: BinOp, l: Form, r: Form, depth: nat, count: nat)
    ensures Room(FBin(op, l, r), depth, count) <==>
              && Room(l, depth, count) && Room(r, depth, count + Size(Tree(l)))
              && count + Size(Tree(l)) + Size(Tree(r)) < ARENA_CAP
  {
  }

  lemma RegroupFour(left: seq<Token>, tok: Token, right: seq<Token>, rest: seq<Token>)
    ensures left + [tok] + right + rest == left + ([tok] + (right + rest))
  {
  }

  /** A primary is read back whole. */
  lemma {:induction false} AtomRead(f: Form, m: nat, rest: seq<Token>, depth: nat, count: nat)
    requires !f.FBin? && Derivation(f, m) && Head(rest) != LParen
    ensures Outcome(ParsePrimary(Yield(f) + rest, depth, count), Room(f, depth, count), Tree(f), rest)
    decreases f, 2
  {
    hide ParsePrimaryImpl, Yield, Derivation, Tree;
    if depth <= MAX_DEPTH {
      ImplRead(f, m, rest, depth, count);
    } else {
      NestingPositive(f);
    }
  }

  lemma NestingPositive(f: Form)
    requires !f.FBin?
    ensures Nesting(f) >= 1
  {
  }

  lemma {:induction false} ImplRead(f: Form, m: nat, rest: seq<Token>, depth: nat, count: nat)
    requires !f.FBin? && Derivation(f, m) && Head(rest) != LParen && depth <= MAX_DEPTH
    ensures Outcome(ParsePrimaryImpl(Yield(f) + rest, depth + 1, count), Room(f, depth, count), Tree(f), rest)
    decreases f, 1
  {
    hide ParsePrimary, ParseExpr, ParseLoop, ParseArgs;
    match f {
      case FLit(v) => HeadTailOf(IntLit(v), rest);
      case FVar(n) => HeadTailOf(Ident(n), rest);
      case FPos(e) => SignRead(TPos, Plus, e, rest, depth, count);
      case FNeg(e) => SignRead(TNeg, Minus, e, rest, depth, count);
      case FGroup(e) => GroupRead(e, rest, depth, count);
      case FCall(n, args) => CallRead(n, args, rest, depth, count);
    }
  }

  lemma {:induction false} SignRead(sign: Tag, tok: Token, e: Form, rest: seq<Token>, depth: nat, count: nat)
    requires (sign == TPos && tok == Plus) || (sign == TNeg && tok == Minus)
    requires Derivation(e, 3) && Head(rest) != LParen && depth <= MAX_DEPTH
    ensures var f := if sign == TPos then FPos(e) else FNeg(e);
            Outcome(ParsePrimaryImpl(Yield(f) + rest, depth + 1, count), Room(f, depth, count), Tree(f), rest)
    decreases e, 4
  {
    hide ParsePrimary, ParsePrimaryImpl;
    Regroup([tok], Yield(e), rest);
    SignTurn(sign, tok, Yield(e) + rest, depth + 1, count);
    if e.FBin? { PrecRange(e.op); }
    AtomRead(e, 3, rest, depth + 1, count);
  }

  lemma {:induction false} GroupRead(e: Form, rest: seq<Token>, depth: nat, count: nat)
    requires Derivation(e, 0)
    ensures Outcome(ParsePrimaryImpl(Yield(FGroup(e)) + rest, depth + 1, count),
                    Room(FGroup(e), depth, count), Tree(FGroup(e)), rest)
    decreases e, 4
  {
    hide ParseExpr, ParseLoop, ParsePrimaryImpl;
    var after := [RParen] + rest;
    RegroupParens(Yield(e), rest);
    HeadTailOf(RParen, rest);
    GroupTurn(Yield(e) + after, depth + 1, count);
    ExprRead(e, 0, after, depth + 1, count, 0);
    LoopStops(Tree(e), after, depth + 1, count, 0);
  }

  lemma RegroupParens(inner: seq<Token>, rest: seq<Token>)
    ensures [LParen] + inner + [RParen] + rest == [LParen] + (inner + ([RParen] + rest))
  {
  }

  /** The arguments fit. */
  ghost predicate ArgsRoom(args: seq<Form>, depth: nat, count: nat, n: nat)
  {
    && n + |args| <= MAX_ARGS && (forall i :: 0 <= i < |args| ==> CallsFit(Trees(args)[i]))
    && depth + NestingAll(args) <= MAX_DEPTH + 1 && count + SizeAll(Trees(args)) <= ARENA_CAP
  }

  lemma ArgsRoomCons(args: seq<Form>, depth: nat, count: nat, n: nat)
    requires args != []
    ensures ArgsRoom(args, depth, count, n) <==>
              && n < MAX_ARGS && Room(args[0], depth, count)
              && (args[1..] == [] || ArgsRoom(args[1..], depth, count + Size(Tree(args[0])), n + 1))
  {
    var ts, more := Trees(args), Trees(args[1..]);
    assert ts[0] == Tree(args[0]) && ts[1..] == more;
    assert forall i :: 0 < i < |ts| ==> ts[i] == more[i - 1];
    assert forall i :: 0 <= i < |more| ==> more[i] == ts[i + 1];
    if args[1..] == [] { assert NestingAll(args[1..]) == 0 && SizeAll(more) == 0; }
  }

  lemma {:induction false} CallRead(n: bytes, args: seq<Form>, rest: seq<Token>, depth: nat, count: nat)
    requires (forall i :: 0 <= i < |args| ==> Derivation(args[i], 0)) && depth <= MAX_DEPTH
    ensures var f := FCall(n, args);
            Outcome(ParsePrimaryImpl(Yield(f) + rest, depth + 1, count), Room(f, depth, count), Tree(f), rest)
    decreases args, 1
  {
    hide ParsePrimaryImpl, ParseArgs, YieldAll, SizeAll, NestingAll, Trees, Derivation;
    var inner := YieldAll(args);
    var after := [RParen] + rest;
    RegroupCall(n, inner, rest);
    HeadTailOf(RParen, rest);
    CallTurn(n, inner + after, depth + 1, count);
    if args == [] {
      NoArgs(after);
    } else {
      FirstToken(args, after);
      ArgsRead(args, rest, depth + 1, count, 0);
    }
  }

  lemma NoArgs(after: seq<Token>)
    ensures YieldAll([]) + after == after && Trees([]) == [] && SizeAll([]) == 0 && NestingAll([]) == 0
  {
  }

  lemma RegroupCall(n: bytes, inner: seq<Token>, rest: seq<Token>)
    ensures [Ident(n), LParen] + inner + [RParen] + rest == [Ident(n)] + ([LParen] + (inner + ([RParen] + rest)))
  {
  }

  /** Yields start with a token that can start one. */
  lemma {:induction false} FirstOfYield(f: Form)
    ensures Yield(f) != [] && Yield(f)[0] != RParen
  {
    if f.FBin? { FirstOfYield(f.left); }
  }

  lemma FirstToken(args: seq<Form>, after: seq<Token>)
    requires args != []
    ensures Head(YieldAll(args) + after) != RParen
  {
    FirstOfYield(args[0]);
  }

  /** What stands behind an argument. */
  function AfterArg(more: seq<Form>, rest: seq<Token>): seq<Token>
  {
    if more == [] then [RParen] + rest else [Comma] + (YieldAll(more) + ([RParen] + rest))
  }

  lemma ArgTokens(f: Form, more: seq<Form>, rest: seq<Token>)
    ensures YieldAll([f] + more) + ([RParen] + rest) == Yield(f) + AfterArg(more, rest)
    ensures Head(AfterArg(more, rest)) == if more == [] then RParen else Comma
    ensures Tail(AfterArg(more, rest)) == if more == [] then rest else YieldAll(more) + ([RParen] + rest)
  {
    hide Yield, YieldAll;
    FirstArg(f, more);
    RegroupFour(Yield(f), Comma, YieldAll(more), [RParen] + rest);
    HeadTailOf(RParen, rest);
    HeadTailOf(Comma, YieldAll(more) + ([RParen] + rest));
  }

  lemma {:induction false} ArgsRead(args: seq<Form>, rest: seq<Token>, depth: nat, count: nat, n: nat)
    requires args != [] && forall i :: 0 <= i < |args| ==> Derivation(args[i], 0)
    ensures var p := ParseArgs(YieldAll(args) + ([RParen] + rest), depth, count, n);
            if ArgsRoom(args, depth, count, n) then p == AOk(Trees(args), rest) else p.AErr?
    decreases args, 0
  {
    hide ParseExpr, ParseLoop, ParseArgs, Yield, YieldAll, Room, ArgsRoom, Derivation, Size, Tree, Trees, AfterArg;
    var f, more := args[0], args[1..];
    HeadTail(args);
    FirstArg(f, more);
    ArgTokens(f, more, rest);
    ExprRead(f, 0, AfterArg(more, rest), depth, count, 0);
    LoopStops(Tree(f), AfterArg(more, rest), depth, count, 0);
    if more != [] { ArgsRead(more, rest, depth, count + Size(Tree(f)), n + 1); }
    ArgsRoomCons(args, depth, count, n);
    ArgsTurn(Yield(f) + AfterArg(more, rest), depth, count, n);
  }

  /** Every derivation is read back exactly if it fits. */
  lemma DerivationRead(f: Form)
    requires Derivation(f, 0)
    ensures Outcome(ParseFull(Yield(f)), Fits(f), Tree(f), [])
  {
    hide ParseExpr, ParseLoop, Yield, Derivation, Tree, Room;
    assert Yield(f) + [] == Yield(f);
    ExprRead(f, 0, [], 0, 0, 0);
    LoopStops(Tree(f), [], 0, 0, 0);
  }

  // ---------------------------------------------------------------- what is accepted is derivable

  lemma HeadFirst(ts: seq<Token>)
    requires Head(ts) != Eof
    ensures ts == [Head(ts)] + Tail(ts)
  {
  }

  /** What a successful parse of a part has read. */
  ghost predicate Reads(f: Form, p: Parsed, ts: seq<Token>)
  {
    p.POk? && Tree(f) == p.tree && ts == Yield(f) + p.rest
  }

  lemma {:induction false} PrimarySound(ts: seq<Token>, depth: nat, count: nat) returns (f: Form)
    requires ParsePrimary(ts, depth, count).POk?
    ensures !f.FBin? && Derivation(f, 3) && Reads(f, ParsePrimary(ts, depth, count), ts)
    decreases |ts|, 1
  {
    hide ParseExpr, ParseArgs, ParseCall, ParseGroup, ParseSigned;
    var r := Tail(ts);
    var p := ParsePrimaryImpl(ts, depth + 1, count);
    HeadFirst(ts);
    match Head(ts) {
      case IntLit(v) => f := FLit(v);
      case Ident(n) =>
        if Head(r) == LParen {
          HeadFirst(r);
          f := CallSound(n, Tail(r), depth + 1, count);
          CallTokens(f, n, p, Tail(r), ts);
        } else {
          f := FVar(n);
        }
      case Plus => f := SignSound(TPos, Plus, r, depth + 1, count, ts);
      case Minus => f := SignSound(TNeg, Minus, r, depth + 1, count, ts);
      case LParen => f := GroupSound(r, depth + 1, count, ts);
    }
  }

  lemma {:induction false} SignSound(sign: Tag, tok: Token, r: seq<Token>, depth: nat, count: nat, ts: seq<Token>)
    returns (f: Form)
    requires (sign == TPos && tok == Plus) || (sign == TNeg && tok == Minus)
    requires ts == [tok] + r && ParseSigned(sign, r, depth, count).POk?
    ensures !f.FBin? && Derivation(f, 3) && Reads(f, ParseSigned(sign, r, depth, count), ts)
    decreases |r|, 2
  {
    hide ParsePrimary;
    var e := PrimarySound(r, depth, count);
    f := if sign == TPos then FPos(e) else FNeg(e);
    SignTokens(sign, tok, e, ParsePrimary(r, depth, count), ParseSigned(sign, r, depth, count), r, ts);
  }

  lemma {:induction false} GroupSound(r: seq<Token>, depth: nat, count: nat, ts: seq<Token>) returns (f: Form)
    requires ts == [LParen] + r && ParseGroup(r, depth, count).POk?
    ensures !f.FBin? && Derivation(f, 3) && Reads(f, ParseGroup(r, depth, count), ts)
    decreases |r|, 3
  {
    hide ParseExpr;
    var e := ExprSound(r, depth, count, 0);
    f := FGroup(e);
    GroupTokens(e, ParseExpr(r, depth, count, 0), ParseGroup(r, depth, count), r, ts);
  }

  lemma SignTokens(sign: Tag, tok: Token, e: Form, q: Parsed, p: Parsed, r: seq<Token>, ts: seq<Token>)
    requires (sign == TPos && tok == Plus) || (sign == TNeg && tok == Minus)
    requires Reads(e, q, r) && ts == [tok] + r && p == POk(Signed(sign, q.tree), q.rest)
    ensures Reads(if sign == TPos then FPos(e) else FNeg(e), p, ts)
  {
    Regroup([tok], Yield(e), q.rest);
  }

  lemma GroupTokens(e: Form, q: Parsed, p: Parsed, r: seq<Token>, ts: seq<Token>)
    requires Reads(e, q, r) && Head(q.rest) == RParen && ts == [LParen] + r && p == POk(q.tree, Tail(q.rest))
    ensures Reads(FGroup(e), p, ts)
  {
    HeadFirst(q.rest);
    RegroupParens(Yield(e), p.rest);
  }

  /** What stands behind the opening parenthesis of a call. */
  ghost predicate CallReads(f: Form, n: bytes, p: Parsed, ts: seq<Token>)
  {
    f.FCall? && f.name == n && p.POk? && Tree(f) == p.tree && ts == YieldAll(f.args) + ([RParen] + p.rest)
  }

  lemma CallTokens(f: Form, n: bytes, p: Parsed, inner: seq<Token>, ts: seq<Token>)
    requires CallReads(f, n, p, inner) && ts == [Ident(n)] + ([LParen] + inner)
    ensures Reads(f, p, ts)
  {
    RegroupCall(n, YieldAll(f.args), p.rest);
  }

  lemma CallForm(n: bytes, args: seq<Form>)
    requires forall i :: 0 <= i < |args| ==> Derivation(args[i], 0)
    ensures Derivation(FCall(n, args), 3) && Tree(FCall(n, args)) == Call(n, Trees(args))
  {
  }

  lemma CallResult(n: bytes, ts: seq<Token>, depth: nat, count: nat)
    requires ParseCall(n, ts, depth, count).POk?
    ensures var p := ParseCall(n, ts, depth, count);
            if Head(ts) == RParen then p == POk(Call(n, []), Tail(ts))
            else var args := ParseArgs(ts, depth, count, 0); args.AOk? && p == POk(Call(n, args.trees), args.rest)
  {
    hide ParseArgs, SizeAll;
  }

  lemma {:induction false} CallSound(n: bytes, ts: seq<Token>, depth: nat, count: nat) returns (f: Form)
    requires ParseCall(n, ts, depth, count).POk?
    ensures f.FCall? && Derivation(f, 3) && CallReads(f, n, ParseCall(n, ts, depth, count), ts)
    decreases |ts|, 4
  {
    hide ParseCall, ParseArgs, YieldAll, Trees, Derivation, Tree;
    CallResult(n, ts, depth, count);
    if Head(ts) == RParen {
      HeadFirst(ts);
      NoArgs(ts);
      CallForm(n, []);
      f := FCall(n, []);
    } else {
      var args := ArgsSound(ts, depth, count, 0);
      CallForm(n, args);
      f := FCall(n, args);
    }
  }

  lemma {:induction false} ArgsSound(ts: seq<Token>, depth: nat, count: nat, n: nat) returns (args: seq<Form>)
    requires ParseArgs(ts, depth, count, n).AOk?
    ensures args != [] && forall i :: 0 <= i < |args| ==> Derivation(args[i], 0)
    ensures var p := ParseArgs(ts, depth, count, n);
            Trees(args) == p.trees && ts == YieldAll(args) + ([RParen] + p.rest)
    decreases |ts|, 3
  {
    hide ParseExpr, ParseArgs, Yield, YieldAll, Derivation, Tree, Trees, Size;
    ArgsTurn(ts, depth, count, n);
    var p := ParseExpr(ts, depth, count, 0);
    var f := ExprSound(ts, depth, count, 0);
    HeadFirst(p.rest);
    if Head(p.rest) == RParen {
      args := [f];
      FirstArg(f, []);
      assert [f] + [] == [f];
    } else {
      var more := ArgsSound(Tail(p.rest), depth, count + Size(p.tree), n + 1);
      args := [f] + more;
      FirstArg(f, more);
      RegroupFour(Yield(f), Comma, YieldAll(more), [RParen] + ParseArgs(ts, depth, count, n).rest);
    }
  }

  lemma {:induction false} ExprSound(ts: seq<Token>, depth: nat, count: nat, minPrec: nat) returns (f: Form)
    requires ParseExpr(ts, depth, count, minPrec).POk?
    ensures var p := ParseExpr(ts, depth, count, minPrec);
            Derivation(f, minPrec) && Reads(f, p, ts) && Precedence(Head(p.rest)) <= minPrec
    decreases |ts|, 2
  {
    hide ParsePrimary, ParseLoop, Derivation, Yield, Tree;
    var first := ParsePrimary(ts, depth, count);
    var e := PrimarySound(ts, depth, count);
    AtomAnywhere(e, 3, minPrec);
    f := LoopSound(e, first.rest, depth, count, minPrec);
  }

  lemma AtomAnywhere(f: Form, m: nat, m': nat)
    requires Derivation(f, m) && (f.FBin? ==> PrecOf(f.op) > m')
    ensures Derivation(f, m')
  {
  }

  /** The loop only adds to a left operand that binds at least as tightly as what comes next. */
  lemma {:induction false} LoopSound(left: Form, ts: seq<Token>, depth: nat, count: nat, minPrec: nat) returns (f: Form)
    requires Derivation(left, minPrec) && ParseLoop(Tree(left), ts, depth, count, minPrec).POk?
    requires left.FBin? ==> Precedence(Head(ts)) <= PrecOf(left.op)
    ensures var p := ParseLoop(Tree(left), ts, depth, count, minPrec);
            Derivation(f, minPrec) && Reads(f, p, Yield(left) + ts) && Precedence(Head(p.rest)) <= minPrec
    decreases |ts|, 4
  {
    hide ParseExpr, Derivation, Yield, Size, Tree;
    var tok := Head(ts);
    var prec := Precedence(tok);
    if prec <= minPrec {
      f := left;
    } else {
      HeadFirst(ts);
      var op, ts' := OpOf(tok), Tail(ts);
      TokenOfOp(tok);
      LoopTurns(Tree(left), tok, ts', depth, count, minPrec);
      var q := ParseExpr(ts', depth, count + Size(Tree(left)), prec);
      var right := ExprSound(ts', depth, count + Size(Tree(left)), prec);
      var both := FBin(op, left, right);
      AtomAnywhere(left, minPrec, prec - 1);
      JoinBin(op, left, right, minPrec);
      f := LoopSound(both, q.rest, depth, count, minPrec);
      RegroupFour(Yield(left), tok, Yield(right), q.rest);
    }
  }

  lemma TokenOfOp(tok: Token)
    requires Precedence(tok) > 0
    ensures TokenOf(OpOf(tok)) == tok && PrecOf(OpOf(tok)) == Precedence(tok)
  {
  }

  lemma JoinBin(op: BinOp, l: Form, r: Form, m: nat)
    requires PrecOf(op) > m && Derivation(l, PrecOf(op) - 1) && Derivation(r, PrecOf(op))
    ensures Derivation(FBin(op, l, r), m) && Tree(FBin(op, l, r)) == Bin(op, Tree(l), Tree(r))
    ensures Yield(FBin(op, l, r)) == Yield(l) + [TokenOf(op)] + Yield(r)
  {
  }

  // ---------------------------------------------------------------- acceptance

  /** f derives the whole of ts. */
  ghost predicate Derives(f: Form, ts: seq<Token>)
  {
    Derivation(f, 0) && Yield(f) == ts
  }

  /** For every token list: it is accepted exactly if it has a derivation within the limits, and
      then to the tree of any derivation it has, so that the grammar is unambiguous. */
  lemma AcceptsDerivable(ts: seq<Token>)
    ensures ParseFull(ts).POk? <==> exists f :: Derives(f, ts) && Fits(f)
    ensures forall f :: Derives(f, ts) ==> Outcome(ParseFull(ts), Fits(f), Tree(f), [])
  {
    hide ParseFull, Derivation, Yield, Tree, Fits;
    forall f | Derives(f, ts) ensures Outcome(ParseFull(ts), Fits(f), Tree(f), []) {
      DerivationRead(f);
    }
    if ParseFull(ts).POk? {
      var f := FullSound(ts);
    }
  }

  lemma FullSound(ts: seq<Token>) returns (f: Form)
    requires ParseFull(ts).POk?
    ensures Derives(f, ts)
  {
    hide ParseExpr, Derivation, Yield, Tree;
    f := ExprSound(ts, 0, 0, 0);
    assert Yield(f) + [] == Yield(f);
  }
}
