/** From source text to a result: tokenizer, parser, arena, lowerer and machine together. */
module Pipeline {
  import opened Bytes
  import opened Token
  import opened Lexemes
  import opened Syntax
  import opened Semantics
  import opened Arena
  import opened Vm
  import opened Lower
  import opened Nonterminals
  import opened Parser

  datatype Compiled = Program(root: nat, arena: seq<Node>, code: seq<Ins>) | Rejected(err: LinErr)

  /** The arena is the image of the tree, in order and within its capacity, and the code is what
      the lowerer makes of it. */
  ghost predicate CompiledFrom(t: Expr, env: seq<Binding>, r: Compiled)
  {
    && r.Program? && r.arena == Flat(t, 0) && r.root == Size(t) - 1
    && Ordered(r.arena) && Acyclic(r.arena) && |r.arena| <= ARENA_CAP
    && LowerArena(r.arena, r.root, env) == Code(r.code)
  }

  /** Parses and lowers a source. */
  method Compile(src: bytes, env: seq<Binding>) returns (r: Compiled)
    ensures var p := Syntax.ParseFull(Tokens(src, 0));
            if p.PErr? then r == Rejected(p.err)
            else if Lowerable(p.tree, env) then CompiledFrom(p.tree, env, r)
            else r == Rejected(UndefVar)
  {
    hide Flat, Size, Tokens, Lowerable, Emit, Syntax.ParseFull;
    var p := new Parser(src);
    var err, root := p.ParseFull();
    if err != LinOk { return Rejected(err); }
    ghost var t := Syntax.ParseFull(Tokens(src, 0)).tree;
    ParsedLowers(Tokens(src, 0), env);
    var out := new LoweredCode();
    err := out.Lower(p.arena, root, env);
    if err != LinOk { return Rejected(err); }
    return Program(root, p.arena, out.code);
  }

  /** What the parser delivers can be lowered unless it calls something or leaves a variable
      unbound; the instruction limit is out of reach. */
  lemma ParsedLowers(ts: seq<Token>, env: seq<Binding>)
    requires Syntax.ParseFull(ts).POk?
    ensures var t := Syntax.ParseFull(ts).tree;
            var a := Flat(t, 0);
            && Size(t) >= 1 && Ordered(a) && Acyclic(a) && |a| == Size(t) <= ARENA_CAP
            && var code := LowerArena(a, Size(t) - 1, env);
               if Lowerable(t, env) then code.Code? && |code.code| <= Size(t) + 1 else code == EmitErr(UndefVar)
  {
    hide Flat, Lowerable, Emit, ParseExpr;
    ExprFits(ts, 0, 0, 0);
    var t := Syntax.ParseFull(ts).tree;
    var a := Flat(t, 0);
    SizePositive(t);
    ParsedMeaning(t, env);
    assert a[0..0 + Size(t)] == a;
    EmitTree(a, t, 0, env, 0);
  }

  /** Source-level compiler correctness: for every source the parser accepts and every
      environment of at most 64 variables that binds it, the compiled function gives the
      meaning of the parsed tree (which is also what the arena evaluator gives) in as many
      steps as it has instructions, or stops with the division error that the meaning has. */
  lemma SourceCorrect(src: bytes, env: seq<Binding>, ctx: Ctx, fi: nat, depth: nat, steps: nat)
    requires Syntax.ParseFull(Tokens(src, 0)).POk? && |env| <= MAX_LOCALS
    requires Lowerable(Syntax.ParseFull(Tokens(src, 0)).tree, env)
    requires fi < |ctx.fns| && depth <= MAX_CALL_DEPTH
    requires var t := Syntax.ParseFull(Tokens(src, 0)).tree;
             && Acyclic(Flat(t, 0)) && Size(t) >= 1
             && LowerArena(Flat(t, 0), Size(t) - 1, env) == Code(ctx.fns[fi].code)
             && ctx.fns[fi] == Fn(|env|, |env|, ctx.fns[fi].code, true, [])
    requires steps + ARENA_CAP + 1 <= ctx.stepLimit
    ensures var t := Syntax.ParseFull(Tokens(src, 0)).tree;
            var r := Exec(ctx, fi, Values(env), depth, steps);
            && EvalNode(Flat(t, 0), Size(t) - 1, env) == Meaning(t, env)
            && match Meaning(t, env)
               case Val(v) => r == Done(v, 1, steps + |ctx.fns[fi].code|)
               case Bad(e) => e == DivZero && r.Failed? && r.err == VmDivZero
    ensures var t := Syntax.ParseFull(Tokens(src, 0)).tree;
            var r := Exec(ctx, fi, Values(env), depth, steps);
            && (forall v :: Gives(t, env, Val(v)) <==> r == Done(v, 1, steps + |ctx.fns[fi].code|))
            && (Gives(t, env, Bad(DivZero)) <==> r.Failed? && r.err == VmDivZero)
  {
    hide Flat, Lowerable, Emit, Tokens, Syntax.ParseFull, Exec, EnterFn, Gives;
    var t := Syntax.ParseFull(Tokens(src, 0)).tree;
    ParsedLowers(Tokens(src, 0), env);
    ParsedMeaning(t, env);
    LowerCorrect(ctx, fi, Flat(t, 0), Size(t) - 1, env, depth, steps);
    forall o ensures Gives(t, env, o) <==> o == Meaning(t, env) { MeaningGiven(t, env, o); }
  }

  /** The same from the characters on: whatever tree the grammar gives the tokens that the text of a
      source writes, the compiled function returns exactly the values that this tree has over the integers. */
  lemma SentenceCorrect(src: bytes, ts: seq<Token>, t: Expr, env: seq<Binding>, ctx: Ctx, fi: nat, depth: nat,
                        steps: nat)
    requires ReadsAll(src, 0, ts) && Sentence(ts, t) && Lowerable(t, env) && |env| <= MAX_LOCALS
    requires fi < |ctx.fns| && depth <= MAX_CALL_DEPTH && steps + ARENA_CAP + 1 <= ctx.stepLimit
    requires && Acyclic(Flat(t, 0)) && Size(t) >= 1
             && LowerArena(Flat(t, 0), Size(t) - 1, env) == Code(ctx.fns[fi].code)
             && ctx.fns[fi] == Fn(|env|, |env|, ctx.fns[fi].code, true, [])
    ensures var r := Exec(ctx, fi, Values(env), depth, steps);
            && (forall v :: Gives(t, env, Val(v)) <==> r == Done(v, 1, steps + |ctx.fns[fi].code|))
            && (Gives(t, env, Bad(DivZero)) <==> r.Failed? && r.err == VmDivZero)
  {
    hide Flat, Lowerable, Emit, Tokens, Syntax.ParseFull, Exec, Gives, Sentence, LowerArena, Acyclic, ReadsAll;
    TokensRead(src, 0, ts);
    AcceptsSentences(ts);
    SourceCorrect(src, env, ctx, fi, depth, steps);
  }
}
