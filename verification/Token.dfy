/** The tokenizer: the scanning loops, and the token list they read off a source text. */
module Token {
  import opened Bytes
  import opened Decimals
  import opened Int64

  datatype Token =
    | IntLit(val: i64) | Ident(name: bytes)
    | Plus | Minus | Mul | Div | Mod
    | EqEq | NotEq | Lt | Lte | Gt | Gte
    | LParen | RParen | Comma | Eof | Invalid

  predicate IsSpace(c: byte) { c == 0x20 || c == 0x09 || c == 0x0d || c == 0x0a }
  predicate IsAlpha(c: byte) { 0x61 <= c <= 0x7a || 0x41 <= c <= 0x5a }
  predicate IsIdentStart(c: byte) { IsAlpha(c) || c == 0x5f }
  predicate IsIdent(c: byte) { IsAlpha(c) || IsDigit(c) || c == 0x5f }

  // ---------------------------------------------------------------- runs of characters

  datatype Class = Spaces | Digits | IdentChars
  {
    predicate Has(c: byte)
    {
      match this case Spaces => IsSpace(c) case Digits => IsDigit(c) case IdentChars => IsIdent(c)
    }
  }

  /** The end of the longest run of characters of one class. */
  function RunEnd(src: bytes, p: nat, cl: Class): (q: nat)
    requires p <= |src|
    ensures p <= q <= |src|
    decreases |src| - p
  {
    if p < |src| && cl.Has(src[p]) then RunEnd(src, p + 1, cl) else p
  }

  lemma {:induction false} RunIsClass(src: bytes, p: nat, cl: Class)
    requires p <= |src|
    ensures forall i :: p <= i < RunEnd(src, p, cl) ==> cl.Has(src[i])
    ensures RunEnd(src, p, cl) < |src| ==> !cl.Has(src[RunEnd(src, p, cl)])
    decreases |src| - p
  {
    if p < |src| && cl.Has(src[p]) { RunIsClass(src, p + 1, cl); }
  }

  function NumberAt(src: bytes, p: nat): nat
    requires p <= |src|
  {
    RunIsClass(src, p, Digits);
    Decimal(src[p..RunEnd(src, p, Digits)])
  }

  function OneChar(c: byte): Token
  {
    if c == 0x2b then Plus
    else if c == 0x2d then Minus
    else if c == 0x2a then Mul
    else if c == 0x2f then Div
    else if c == 0x25 then Mod
    else if c == 0x3c then Lt
    else if c == 0x3e then Gt
    else if c == 0x28 then LParen
    else if c == 0x29 then RParen
    else if c == 0x2c then Comma
    else Invalid
  }

  /** The token that starts at a character that is no space, and where it ends. */
  function Lexeme(src: bytes, p: nat): (r: (Token, nat))
    requires p < |src|
    ensures p < r.1 <= |src|
  {
    var c := src[p];
    var followedByEq := p + 1 < |src| && src[p + 1] == 0x3d;
    if IsDigit(c) then
      var q := RunEnd(src, p, Digits);
      if q < |src| && IsIdentStart(src[q]) then (Invalid, q)
      else (IntLit(FromU64(NumberAt(src, p) % TWO64)), q)
    else if IsIdentStart(c) then
      var q := RunEnd(src, p, IdentChars);
      (Ident(src[p..q]), q)
    else if c == 0x3d && followedByEq then (EqEq, p + 2)
    else if c == 0x21 && followedByEq then (NotEq, p + 2)
    else if c == 0x3c && followedByEq then (Lte, p + 2)
    else if c == 0x3e && followedByEq then (Gte, p + 2)
    else (OneChar(c), p + 1)
  }

  function Lex(src: bytes, pos: nat): (r: (Token, nat))
    requires pos <= |src|
    ensures pos <= r.1 <= |src|
    ensures r.0 != Eof ==> pos < r.1
  {
    var p := RunEnd(src, pos, Spaces);
    if p == |src| then (Eof, p) else Lexeme(src, p)
  }

  /** All tokens from a position to the end of the source. */
  function Tokens(src: bytes, pos: nat): seq<Token>
    requires pos <= |src|
    decreases |src| - pos
  {
    var (tok, next) := Lex(src, pos);
    if tok == Eof then [] else [tok] + Tokens(src, next)
  }

  /** Reading a token is taking the head of the token list; the end of input repeats. */
  function Head(ts: seq<Token>): Token { if ts == [] then Eof else ts[0] }
  function Tail(ts: seq<Token>): seq<Token> { if ts == [] then [] else ts[1..] }

  lemma LexEof(src: bytes, pos: nat)
    requires pos <= |src|
    ensures Lex(src, pos).0 == Eof ==> Lex(src, pos).1 == |src| && Tokens(src, |src|) == []
  {
    if Lex(src, pos).0 == Eof { assert RunEnd(src, |src|, Spaces) == |src|; }
  }

  lemma LexIsHead(src: bytes, pos: nat)
    requires pos <= |src|
    ensures Lex(src, pos).0 == Head(Tokens(src, pos))
    ensures Tokens(src, Lex(src, pos).1) == Tail(Tokens(src, pos))
  {
    LexEof(src, pos);
  }

  lemma NoEofInside(src: bytes, pos: nat)
    requires pos <= |src|
    ensures forall i :: 0 <= i < |Tokens(src, pos)| ==> Tokens(src, pos)[i] != Eof
    decreases |src| - pos
  {
    var (tok, next) := Lex(src, pos);
    if tok != Eof { NoEofInside(src, next); }
  }

  // ---------------------------------------------------------------- the scanner

  lemma PushDigit(n: nat, d: nat)
    ensures (n % TWO64 * 10 + d) % TWO64 == (10 * n + d) % TWO64
  {
    var q := n / TWO64;
    assert n == q * TWO64 + n % TWO64;
    assert 10 * n + d == (10 * q) * TWO64 + (n % TWO64 * 10 + d);
    AddMultiple(n % TWO64 * 10 + d, 10 * q);
  }

  lemma AddMultiple(a: int, k: int)
    ensures (k * TWO64 + a) % TWO64 == a % TWO64
  {
  }

  /** One token from `pos` on.  Digits are accumulated with 64-bit wrap-around. */
  method NextToken(src: bytes, pos: nat) returns (tok: Token, next: nat)
    requires pos <= |src|
    ensures (tok, next) == Lex(src, pos)
  {
    var p := pos;
    while p < |src| && IsSpace(src[p])
      invariant pos <= p <= |src| && RunEnd(src, p, Spaces) == RunEnd(src, pos, Spaces)
    {
      p := p + 1;
    }
    if p >= |src| { return Eof, p; }
    var c := src[p];
    if IsDigit(c) {
      tok, next := ScanNumber(src, p);
      return;
    }
    if IsIdentStart(c) {
      var start := p;
      while p < |src| && IsIdent(src[p])
        invariant start <= p <= |src| && RunEnd(src, p, IdentChars) == RunEnd(src, start, IdentChars)
      {
        p := p + 1;
      }
      return Ident(src[start..p]), p;
    }
    if c == 0x3d && p + 1 < |src| && src[p + 1] == 0x3d { return EqEq, p + 2; }
    if c == 0x21 && p + 1 < |src| && src[p + 1] == 0x3d { return NotEq, p + 2; }
    if c == 0x3c && p + 1 < |src| && src[p + 1] == 0x3d { return Lte, p + 2; }
    if c == 0x3e && p + 1 < |src| && src[p + 1] == 0x3d { return Gte, p + 2; }
    return OneChar(c), p + 1;
  }

  method ScanNumber(src: bytes, start: nat) returns (tok: Token, next: nat)
    requires start < |src| && IsDigit(src[start])
    ensures (tok, next) == Lexeme(src, start)
  {
    var p := start;
    var num: u64 := 0;
    while p < |src| && IsDigit(src[p])
      invariant start <= p <= |src| && RunEnd(src, p, Digits) == RunEnd(src, start, Digits)
      invariant forall i :: start <= i < p ==> IsDigit(src[i])
      invariant num == Decimal(src[start..p]) % TWO64
    {
      assert src[start..p + 1][..p - start] == src[start..p];
      PushDigit(Decimal(src[start..p]), src[p] as int - 0x30);
      num := (num * 10 + (src[p] as int - 0x30)) % TWO64;
      p := p + 1;
    }
    if p < |src| && (IsAlpha(src[p]) || src[p] == 0x5f) { return Invalid, p; }
    return IntLit(FromU64(num)), p;
  }
}
