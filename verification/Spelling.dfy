/** Token lists written out as source text, and read back by the tokenizer. */
module Spelling {
  import opened Bytes
  import opened Seqs
  import opened Int64
  import opened Decimals
  import opened Token
  import opened Syntax
  import opened Grammar
  import opened Printer

  predicate ValidName(name: bytes)
  {
    name != [] && IsIdentStart(name[0]) && forall i :: 0 <= i < |name| ==> IsIdent(name[i])
  }

  predicate Spellable(t: Token)
  {
    t != Eof && t != Invalid && (t.Ident? ==> ValidName(t.name))
  }

  function Spell(t: Token): bytes
  {
    match t
    case IntLit(v) => DigitsOf(ToU64(v))
    case Ident(n) => n
    case Plus => [0x2b] case Minus => [0x2d] case Mul => [0x2a] case Div => [0x2f] case Mod => [0x25]
    case EqEq => [0x3d, 0x3d] case NotEq => [0x21, 0x3d]
    case Lt => [0x3c] case Lte => [0x3c, 0x3d] case Gt => [0x3e] case Gte => [0x3e, 0x3d]
    case LParen => [0x28] case RParen => [0x29] case Comma => [0x2c]
    case Eof => [] case Invalid => [0x3f]
  }

  /** Each token after one space. */
  function Render(ts: seq<Token>): bytes
  {
    if ts == [] then [] else [0x20] + Spell(ts[0]) + Render(ts[1..])
  }

  /** A run ends where its class ends. */
  lemma {:induction false} RunEndAt(src: bytes, p: nat, q: nat, cl: Class)
    requires p <= q <= |src| && forall i :: p <= i < q ==> cl.Has(src[i])
    requires q < |src| ==> !cl.Has(src[q])
    ensures RunEnd(src, p, cl) == q
    decreases q - p
  {
    if p < q { RunEndAt(src, p + 1, q, cl); }
  }

  /** The spelling of `t` stands at `p`, and a space or the end of the text follows. */
  ghost predicate SpelledAt(src: bytes, p: nat, t: Token)
  {
    && p + |Spell(t)| <= |src| && src[p..p + |Spell(t)|] == Spell(t)
    && (p + |Spell(t)| < |src| ==> src[p + |Spell(t)|] == 0x20)
  }

  lemma SpellFirst(t: Token)
    requires Spellable(t)
    ensures Spell(t) != [] && !IsSpace(Spell(t)[0])
  {
  }

  lemma LexemeSpelled(src: bytes, p: nat, t: Token)
    requires Spellable(t) && SpelledAt(src, p, t)
    ensures p < |src| && Lexeme(src, p) == (t, p + |Spell(t)|)
  {
    hide Lexeme, DigitsOf;
    match t {
      case IntLit(v) => NumberSpelled(src, p, v);
      case Ident(n) => NameSpelled(src, p, n);
      case _ =>
        var s := Spell(t);
        SliceElements(src, p, s);
        if |s| == 1 { OneByteSpelled(src, p, t); } else { TwoBytesSpelled(src, p, t); }
    }
  }

  lemma OneByteSpelled(src: bytes, p: nat, t: Token)
    requires p < |src| && Spellable(t) && !t.IntLit? && !t.Ident? && Spell(t) == [src[p]]
    requires p + 1 < |src| ==> src[p + 1] == 0x20
    ensures Lexeme(src, p) == (t, p + 1)
  {
    hide RunEnd, DigitsOf;
  }

  lemma TwoBytesSpelled(src: bytes, p: nat, t: Token)
    requires p + 1 < |src| && Spellable(t) && !t.IntLit? && !t.Ident? && Spell(t) == [src[p], src[p + 1]]
    ensures Lexeme(src, p) == (t, p + 2)
  {
    hide RunEnd, DigitsOf;
  }

  lemma SliceElements(src: bytes, p: nat, s: bytes)
    requires p + |s| <= |src| && src[p..p + |s|] == s
    ensures forall i :: p <= i < p + |s| ==> src[i] == s[i - p]
  {
    assert forall i :: p <= i < p + |s| ==> src[i] == src[p..p + |s|][i - p];
  }

  lemma NumberSpelled(src: bytes, p: nat, v: i64)
    requires SpelledAt(src, p, IntLit(v))
    ensures p < |src| && Lexeme(src, p) == (IntLit(v), p + |Spell(IntLit(v))|)
  {
    hide DigitsOf;
    var s := DigitsOf(ToU64(v));
    SliceElements(src, p, s);
    RunEndAt(src, p, p + |s|, Digits);
    DecimalDigits(ToU64(v));
    assert IsDigit(src[p]);
  }

  lemma NameSpelled(src: bytes, p: nat, n: bytes)
    requires ValidName(n) && SpelledAt(src, p, Ident(n))
    ensures p < |src| && Lexeme(src, p) == (Ident(n), p + |n|)
  {
    SliceElements(src, p, n);
    RunEndAt(src, p, p + |n|, IdentChars);
    assert IsIdentStart(src[p]);
  }

  lemma LexSpelled(src: bytes, p: nat, t: Token)
    requires Spellable(t) && p < |src| && src[p] == 0x20 && SpelledAt(src, p + 1, t)
    ensures Lex(src, p) == (t, p + 1 + |Spell(t)|)
  {
    SpellFirst(t);
    assert src[p + 1] == src[p + 1..p + 1 + |Spell(t)|][0];
    RunEndAt(src, p, p + 1, Spaces);
    LexemeSpelled(src, p + 1, t);
  }

  /** The tokenizer reads rendered tokens back, each and in order. */
  lemma {:induction false} TokensRendered(src: bytes, p: nat, ts: seq<Token>)
    requires p <= |src| && src[p..] == Render(ts)
    requires forall i :: 0 <= i < |ts| ==> Spellable(ts[i])
    ensures Tokens(src, p) == ts
    decreases |ts|
  {
    hide Spell, Lex, Spellable, Tokens, Render;
    RenderFirst(ts);
    if ts == [] {
      TokensEnd(src, p);
    } else {
      var t, tail := ts[0], ts[1..];
      var q := p + 1 + |Spell(t)|;
      TokenRendered(src, p, t, Render(tail));
      TokensRendered(src, q, tail);
      TokensHead(src, p, t, q);
      HeadTail(ts);
    }
  }

  lemma RenderFirst(ts: seq<Token>)
    ensures if ts == [] then Render(ts) == []
            else Render(ts) == [0x20] + Spell(ts[0]) + Render(ts[1..]) && Render(ts)[0] == 0x20
    ensures |ts| > 1 ==> Render(ts[1..]) != [] && Render(ts[1..])[0] == 0x20
    ensures |ts| == 1 ==> Render(ts[1..]) == []
  {
    hide Spell;
  }

  lemma TokensEnd(src: bytes, p: nat)
    requires p <= |src| && src[p..] == []
    ensures Tokens(src, p) == []
  {
    assert p == |src|;
  }

  lemma TokenRendered(src: bytes, p: nat, t: Token, rest: bytes)
    requires p <= |src| && src[p..] == [0x20] + Spell(t) + rest && Spellable(t) && (rest != [] ==> rest[0] == 0x20)
    ensures var q := p + 1 + |Spell(t)|;
            q <= |src| && src[q..] == rest && Lex(src, p) == (t, q) && t != Eof
  {
    hide Spell, Lex;
    var s := Spell(t);
    var q := p + 1 + |s|;
    RenderParts(src, p, s, rest);
    assert rest != [] ==> src[q] == src[q..][0];
    LexSpelled(src, p, t);
  }

  lemma TokensHead(src: bytes, p: nat, t: Token, q: nat)
    requires p <= |src| && q <= |src| && Lex(src, p) == (t, q) && t != Eof
    ensures Tokens(src, p) == [t] + Tokens(src, q)
  {
    hide Lex;
  }

  lemma RenderParts(src: bytes, p: nat, s: bytes, rest: bytes)
    requires p <= |src| && src[p..] == [0x20] + s + rest
    ensures p + 1 + |s| <= |src| && src[p] == 0x20
    ensures src[p + 1..p + 1 + |s|] == s && src[p + 1 + |s|..] == rest
  {
    var d := src[p..];
    assert d[0] == 0x20 && d[1..1 + |s|] == s && d[1 + |s|..] == rest;
    assert src[p..][1..1 + |s|] == src[p + 1..p + 1 + |s|];
    assert src[p..][1 + |s|..] == src[p + 1 + |s|..];
  }

  // ---------------------------------------------------------------- whole expressions

  /** All names in the tree can be written as identifiers. */
  predicate NamesValid(t: Expr)
  {
    match t
    case Lit(_) => true
    case Var(n) => ValidName(n)
    case Pos(e) => NamesValid(e)
    case Neg(e) => NamesValid(e)
    case Bin(_, l, r) => NamesValid(l) && NamesValid(r)
    case Call(n, args) => ValidName(n) && forall i :: 0 <= i < |args| ==> NamesValid(args[i])
  }

  ghost predicate AllSpellable(ts: seq<Token>)
  {
    forall i :: 0 <= i < |ts| ==> Spellable(ts[i])
  }

  lemma SpellableConcat(a: seq<Token>, b: seq<Token>)
    requires AllSpellable(a) && AllSpellable(b)
    ensures AllSpellable(a + b)
  {
  }

  lemma {:induction false} YieldSpellable(f: Form)
    requires NamesValid(Tree(f))
    ensures AllSpellable(Yield(f))
    decreases f
  {
    match f {
      case FLit(_) =>
      case FVar(_) =>
      case FPos(e) =>
        YieldSpellable(e);
        SpellableConcat([Plus], Yield(e));
      case FNeg(e) =>
        YieldSpellable(e);
        SpellableConcat([Minus], Yield(e));
      case FGroup(e) =>
        YieldSpellable(e);
        SpellableConcat([LParen], Yield(e));
        SpellableConcat([LParen] + Yield(e), [RParen]);
      case FBin(op, l, r) =>
        YieldSpellable(l);
        YieldSpellable(r);
        SpellableConcat(Yield(l), [TokenOf(op)]);
        SpellableConcat(Yield(l) + [TokenOf(op)], Yield(r));
      case FCall(n, args) =>
        ArgsSpellable(args);
        SpellableConcat([Ident(n), LParen], YieldAll(args));
        SpellableConcat([Ident(n), LParen] + YieldAll(args), [RParen]);
    }
  }

  lemma {:induction false} ArgsSpellable(args: seq<Form>)
    requires forall i :: 0 <= i < |args| ==> NamesValid(Trees(args)[i])
    ensures AllSpellable(YieldAll(args))
    decreases args
  {
    if args != [] {
      assert NamesValid(Trees(args)[0]);
      YieldSpellable(args[0]);
      if |args| > 1 {
        assert forall i :: 0 <= i < |args| - 1 ==> Trees(args[1..])[i] == Trees(args)[i + 1];
        ArgsSpellable(args[1..]);
        SpellableConcat(Yield(args[0]), [Comma]);
        SpellableConcat(Yield(args[0]) + [Comma], YieldAll(args[1..]));
      }
    }
  }

  /** Text of any derivation, parentheses included: tokenizing and parsing it gives its tree exactly
      when it is within the three limits, and an error otherwise. */
  lemma TextRead(f: Form)
    requires Derivation(f, 0) && NamesValid(Tree(f))
    ensures Outcome(ParseFull(Tokens(Render(Yield(f)), 0)), Fits(f), Tree(f), [])
  {
    hide ParseFull, Yield, Render, Tokens, Tree, Fits, Derivation;
    YieldSpellable(f);
    var text := Render(Yield(f));
    assert text[0..] == text;
    TokensRendered(text, 0, Yield(f));
    DerivationRead(f);
  }

  function Source(t: Expr): bytes { Render(Print(t)) }

  /** From tree to text and back: tokenizing and parsing the printed text rebuilds the tree
      exactly when the tree fits the parser's three limits, and is rejected otherwise. */
  lemma SourceRoundTrip(t: Expr)
    requires NamesValid(t)
    ensures var fits := CallsFit(t) && Nesting(Parens(t, 0)) <= MAX_DEPTH + 1 && Size(t) <= ARENA_CAP;
            var p := ParseFull(Tokens(Source(t), 0));
            (fits <==> p.POk?) && (fits ==> p.tree == t)
  {
    hide ParseFull, Parens, Render, Tokens, Yield, Nesting, Derivation;
    ParensDerive(t, 0);
    TextRead(Parens(t, 0));
  }
}
