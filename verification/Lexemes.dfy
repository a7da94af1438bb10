/** What the tokenizer reads, said by characters: blanks, then the longest piece of text that is the
    text of a token. */
module Lexemes {
  import opened Bytes
  import opened Int64
  import opened Decimals
  import opened Token

  predicate Blank(c: byte) { c as char in " \t\r\n" }
  predicate Digit(c: byte) { '0' <= c as char <= '9' }
  predicate Letter(c: byte) { 'a' <= c as char <= 'z' || 'A' <= c as char <= 'Z' || c as char == '_' }

  /** The number that decimal digits stand for, highest place first. */
  function Value(digits: bytes): int
  {
    if digits == [] then 0 else (digits[0] - '0' as int) * Power10(|digits| - 1) + Value(digits[1..])
  }

  function Power10(n: nat): nat { if n == 0 then 1 else 10 * Power10(n - 1) }

  /** The bytes are the text of the token. */
  ghost predicate Writes(b: bytes, tok: Token)
  {
    match tok
    case IntLit(v) =>
      && b != [] && (forall i :: 0 <= i < |b| ==> Digit(b[i]))
      && (v - Value(b)) % 0x1_0000_0000_0000_0000 == 0
    case Ident(name) =>
      b == name && b != [] && Letter(b[0]) && forall i :: 0 <= i < |b| ==> Letter(b[i]) || Digit(b[i])
    case Plus => b == ['+' as int]
    case Minus => b == ['-' as int]
    case Mul => b == ['*' as int]
    case Div => b == ['/' as int]
    case Mod => b == ['%' as int]
    case EqEq => b == ['=' as int, '=' as int]
    case NotEq => b == ['!' as int, '=' as int]
    case Lt => b == ['<' as int]
    case Lte => b == ['<' as int, '=' as int]
    case Gt => b == ['>' as int]
    case Gte => b == ['>' as int, '=' as int]
    case LParen => b == ['(' as int]
    case RParen => b == [')' as int]
    case Comma => b == [',' as int]
    case Eof => false
    case Invalid => false
  }

  ghost predicate IsLexeme(b: bytes)
  {
    exists tok :: Writes(b, tok)
  }

  /** The longest text of a token from p on ends at q. */
  ghost predicate Longest(src: bytes, p: nat, q: nat)
  {
    && p <= q <= |src| && IsLexeme(src[p..q])
    && forall n :: q < n <= |src| ==> !IsLexeme(src[p..n])
  }

  ghost predicate NumberRunsOn(src: bytes, p: nat, q: nat)
  {
    p < q < |src| && Digit(src[p]) && Letter(src[q])
  }

  /** The token at a character that is no blank: the longest text of one, except that a number with
      a letter right behind it is invalid, and so is a character that begins no token. */
  ghost predicate ReadsAt(src: bytes, p: nat, tok: Token, next: nat)
  {
    if exists q: nat :: Longest(src, p, q) then
      && Longest(src, p, next)
      && (if NumberRunsOn(src, p, next) then tok == Invalid else Writes(src[p..next], tok))
    else tok == Invalid && next == p + 1
  }

  /** Where the blanks end. */
  ghost predicate BlanksTo(src: bytes, pos: nat, p: nat)
  {
    && pos <= p <= |src| && (forall i :: pos <= i < p ==> Blank(src[i]))
    && (p < |src| ==> !Blank(src[p]))
  }

  /** Blanks are skipped; at the end there is only the end. */
  ghost predicate Reads(src: bytes, pos: nat, tok: Token, next: nat)
  {
    exists p: nat :: BlanksTo(src, pos, p) && p <= |src|
      && if p == |src| then tok == Eof && next == p else ReadsAt(src, p, tok, next)
  }

  // ---------------------------------------------------------------- the classes

  lemma ClassesAgree(c: byte)
    ensures Blank(c) <==> IsSpace(c)
    ensures Digit(c) <==> IsDigit(c)
    ensures Letter(c) <==> IsIdentStart(c)
    ensures Letter(c) || Digit(c) <==> IsIdent(c)
    ensures !(Blank(c) && (Letter(c) || Digit(c))) && !(Letter(c) && Digit(c))
  {
  }

  lemma {:induction false} ValueSnoc(b: bytes, c: byte)
    ensures Value(b + [c]) == 10 * Value(b) + (c - 0x30)
  {
    if b == [] {
      assert Value([c][1..]) == 0 && Power10(0) == 1;
    } else {
      assert (b + [c])[1..] == b[1..] + [c] && (b + [c])[0] == b[0];
      ValueSnoc(b[1..], c);
      Distributes(10, (b[0] as int - 0x30) * Power10(|b| - 1), Value(b[1..]));
      Assoc(10, b[0] as int - 0x30, Power10(|b| - 1));
    }
  }

  lemma {:induction false} ValueIsDecimal(b: bytes)
    requires forall i :: 0 <= i < |b| ==> IsDigit(b[i])
    ensures Value(b) == Decimal(b)
  {
    if b != [] {
      var n := |b| - 1;
      assert b == b[..n] + [b[n]];
      ValueSnoc(b[..n], b[n]);
      ValueIsDecimal(b[..n]);
    }
  }

  // ---------------------------------------------------------------- one lexeme

  /** What the first and the second character say about the token. */
  lemma LexemeStart(b: bytes, tok: Token)
    requires Writes(b, tok)
    ensures b != []
    ensures Digit(b[0]) ==> tok.IntLit? && forall i :: 0 <= i < |b| ==> Digit(b[i])
    ensures Letter(b[0]) ==> tok == Ident(b) && forall i :: 0 <= i < |b| ==> Letter(b[i]) || Digit(b[i])
    ensures !Digit(b[0]) && !Letter(b[0]) ==> |b| == 1 || (|b| == 2 && b[0] in [0x3d, 0x21, 0x3c, 0x3e] && b[1] == 0x3d)
    ensures !Digit(b[0]) && !Letter(b[0]) && |b| == 1 ==> OneChar(b[0]) != Invalid
  {
  }

  lemma SameText(b: bytes, s: Token, t: Token)
    requires Writes(b, s) && Writes(b, t)
    ensures s == t
  {
    LexemeStart(b, s);
    LexemeStart(b, t);
    if s.IntLit? && t.IntLit? { SameResidue(s.val, t.val, Value(b)); }
  }

  lemma SameResidue(v: i64, w: i64, z: int)
    requires (v - z) % TWO64 == 0 && (w - z) % TWO64 == 0
    ensures v == w
  {
  }

  lemma LongestOnce(src: bytes, p: nat, q: nat, n: nat)
    requires Longest(src, p, q) && Longest(src, p, n)
    ensures q == n
  {
  }

  lemma LongestHolds(src: bytes, p: nat, q: nat, tok: Token)
    requires p <= q <= |src| && Writes(src[p..q], tok)
    requires forall n :: q < n <= |src| ==> !IsLexeme(src[p..n])
    ensures Longest(src, p, q)
  {
  }

  lemma RunWrites(src: bytes, p: nat, q: nat, cl: Class)
    requires p < q <= |src| && q == RunEnd(src, p, cl) && (cl == Digits || cl == IdentChars)
    ensures forall i :: 0 <= i < q - p ==> cl.Has(src[p..q][i])
    ensures cl == Digits ==> Digit(src[p]) && forall i :: 0 <= i < q - p ==> Digit(src[p..q][i])
  {
    RunIsClass(src, p, cl);
  }

  /** No token whose text goes beyond the end of a run begins as the run does. */
  lemma NotLonger(src: bytes, p: nat, q: nat, n: nat, cl: Class, tok: Token)
    requires p < q < n <= |src| && q == RunEnd(src, p, cl) && (cl == Digits || cl == IdentChars)
    requires cl == IdentChars ==> Letter(src[p])
    ensures !Writes(src[p..n], tok)
  {
    hide Writes;
    RunIsClass(src, p, cl);
    var b := src[p..n];
    assert b[0] == src[p] && b[q - p] == src[q];
    ClassesAgree(b[0]);
    ClassesAgree(b[q - p]);
    if Writes(b, tok) { LexemeStart(b, tok); }
  }

  lemma RunLongest(src: bytes, p: nat, q: nat, cl: Class, tok: Token)
    requires p < q <= |src| && q == RunEnd(src, p, cl) && (cl == Digits || cl == IdentChars)
    requires cl == IdentChars ==> Letter(src[p])
    requires Writes(src[p..q], tok)
    ensures Longest(src, p, q)
  {
    hide Writes, RunEnd;
    forall n | q < n <= |src| ensures !IsLexeme(src[p..n]) {
      if t :| Writes(src[p..n], t) { NotLonger(src, p, q, n, cl, t); }
    }
  }

  lemma DigitsRead(src: bytes, p: nat)
    requires p < |src| && IsDigit(src[p])
    ensures var q := RunEnd(src, p, Digits);
            p < q && Longest(src, p, q) && Writes(src[p..q], IntLit(FromU64(NumberAt(src, p) % TWO64)))
  {
    hide Decimal, FromU64, Longest;
    var q := RunEnd(src, p, Digits);
    var b := src[p..q];
    RunWrites(src, p, q, Digits);
    ValueIsDecimal(b);
    ReducedWraps(Decimal(b));
    Negated(Decimal(b), FromU64(Decimal(b) % TWO64));
    NumberIs(src, p, b);
    RunLongest(src, p, q, Digits, IntLit(FromU64(NumberAt(src, p) % TWO64)));
  }

  lemma NumberIs(src: bytes, p: nat, b: bytes)
    requires p < |src| && b == src[p..RunEnd(src, p, Digits)] && forall i :: 0 <= i < |b| ==> IsDigit(b[i])
    ensures NumberAt(src, p) == Decimal(b)
  {
  }

  lemma Negated(z: int, v: i64)
    requires Wraps(z, v)
    ensures (v - z) % 0x1_0000_0000_0000_0000 == 0
  {
  }

  lemma NameRead(src: bytes, p: nat)
    requires p < |src| && IsIdentStart(src[p])
    ensures var q := RunEnd(src, p, IdentChars);
            p < q && Longest(src, p, q) && Writes(src[p..q], Ident(src[p..q]))
  {
    hide Longest;
    var q := RunEnd(src, p, IdentChars);
    RunWrites(src, p, q, IdentChars);
    ClassesAgree(src[p]);
    forall i | 0 <= i < q - p ensures Letter(src[p..q][i]) || Digit(src[p..q][i]) { ClassesAgree(src[p..q][i]); }
    NameWrites(src[p..q]);
    RunLongest(src, p, q, IdentChars, Ident(src[p..q]));
  }

  lemma NameWrites(b: bytes)
    requires b != [] && Letter(b[0]) && forall i :: 0 <= i < |b| ==> Letter(b[i]) || Digit(b[i])
    ensures Writes(b, Ident(b))
  {
  }

  /** Neither a digit nor a letter: an operator of two characters, of one, or nothing. */
  lemma SignRead(src: bytes, p: nat)
    requires p < |src| && !IsDigit(src[p]) && !IsIdentStart(src[p])
    ensures var (tok, q) := Lexeme(src, p);
            if tok == Invalid then q == p + 1 && forall n :: p <= n <= |src| ==> !IsLexeme(src[p..n])
            else Longest(src, p, q) && Writes(src[p..q], tok)
  {
    var (tok, q) := Lexeme(src, p);
    if tok != Invalid {
      SignWrites(src, p);
      assert src[p..q][0] == src[p];
    }
    forall n | p <= n <= |src| && (tok != Invalid ==> q < n) ensures !IsLexeme(src[p..n]) {
      if t :| Writes(src[p..n], t) { SignNotWritten(src, p, n, t); }
    }
    if tok != Invalid { LongestHolds(src, p, q, tok); }
  }

  lemma SignNotWritten(src: bytes, p: nat, n: nat, t: Token)
    requires p < |src| && !IsDigit(src[p]) && !IsIdentStart(src[p]) && p <= n <= |src|
    requires Lexeme(src, p).0 == Invalid || Lexeme(src, p).1 < n
    ensures !Writes(src[p..n], t)
  {
    hide Writes;
    var b := src[p..n];
    if n > p {
      assert b[0] == src[p] && (n > p + 1 ==> b[1] == src[p + 1]);
      ClassesAgree(b[0]);
    }
    if Writes(b, t) { LexemeStart(b, t); }
  }

  lemma SignWrites(src: bytes, p: nat)
    requires p < |src| && !IsDigit(src[p]) && !IsIdentStart(src[p]) && Lexeme(src, p).0 != Invalid
    ensures var (tok, q) := Lexeme(src, p); Writes(src[p..q], tok)
  {
    var (tok, q) := Lexeme(src, p);
    assert src[p..p + 1] == [src[p]];
    if p + 1 < |src| { assert src[p..p + 2] == [src[p], src[p + 1]]; }
  }

  lemma NothingLongest(src: bytes, p: nat)
    requires p <= |src| && forall n :: p <= n <= |src| ==> !IsLexeme(src[p..n])
    ensures !exists q: nat :: Longest(src, p, q)
  {
    hide IsLexeme;
  }

  lemma LexemeReads(src: bytes, p: nat)
    requires p < |src|
    ensures ReadsAt(src, p, Lexeme(src, p).0, Lexeme(src, p).1)
  {
    hide Longest, Writes;
    ClassesAgree(src[p]);
    if IsDigit(src[p]) {
      DigitsRead(src, p);
      var q := RunEnd(src, p, Digits);
      if q < |src| { ClassesAgree(src[q]); }
    } else if IsIdentStart(src[p]) {
      NameRead(src, p);
    } else {
      SignRead(src, p);
      if Lexeme(src, p).0 == Invalid { NothingLongest(src, p); }
    }
  }

  lemma ReadsAtOnce(src: bytes, p: nat, s: Token, m: nat, t: Token, n: nat)
    requires ReadsAt(src, p, s, m) && ReadsAt(src, p, t, n)
    ensures s == t && m == n
  {
    hide Writes, IsLexeme;
    if q: nat :| Longest(src, p, q) {
      LongestOnce(src, p, m, n);
      if !NumberRunsOn(src, p, m) { SameText(src[p..m], s, t); }
    }
  }

  lemma BlanksEnd(src: bytes, pos: nat, p: nat)
    requires pos <= |src|
    ensures BlanksTo(src, pos, p) <==> p == RunEnd(src, pos, Spaces)
  {
    hide Blank;
    RunIsClass(src, pos, Spaces);
    forall i | 0 <= i < |src| ensures Blank(src[i]) <==> IsSpace(src[i]) { ClassesAgree(src[i]); }
  }

  /** A token is read exactly as the characters say. */
  lemma LexReads(src: bytes, pos: nat, tok: Token, next: nat)
    requires pos <= |src|
    ensures Reads(src, pos, tok, next) <==> Lex(src, pos) == (tok, next)
  {
    hide ReadsAt, Lexeme, BlanksTo;
    var p := RunEnd(src, pos, Spaces);
    BlanksEnd(src, pos, p);
    if p < |src| { LexemeReads(src, p); }
    if Reads(src, pos, tok, next) {
      var q: nat :| BlanksTo(src, pos, q) && q <= |src|
        && if q == |src| then tok == Eof && next == q else ReadsAt(src, q, tok, next);
      BlanksEnd(src, pos, q);
      if p < |src| { ReadsAtOnce(src, p, tok, next, Lexeme(src, p).0, Lexeme(src, p).1); }
    }
  }

  /** The tokens of a text from a position to its end. */
  ghost predicate ReadsAll(src: bytes, pos: nat, ts: seq<Token>)
    decreases |ts|
  {
    if ts == [] then exists end: nat :: Reads(src, pos, Eof, end)
    else ts[0] != Eof && exists n: nat :: n <= |src| && Reads(src, pos, ts[0], n) && ReadsAll(src, n, ts[1..])
  }

  /** The token list is what the characters say. */
  lemma {:induction false} TokensRead(src: bytes, pos: nat, ts: seq<Token>)
    requires pos <= |src|
    ensures ReadsAll(src, pos, ts) <==> ts == Tokens(src, pos)
    decreases |ts|
  {
    hide Reads, Lex;
    var (tok, next) := Lex(src, pos);
    LexReads(src, pos, tok, next);
    if ts == [] {
      forall end: nat ensures Reads(src, pos, Eof, end) <==> (tok, next) == (Eof, end) { LexReads(src, pos, Eof, end); }
    } else {
      forall n: nat ensures Reads(src, pos, ts[0], n) <==> (tok, next) == (ts[0], n) { LexReads(src, pos, ts[0], n); }
      TokensRead(src, next, ts[1..]);
      assert ts == [ts[0]] + ts[1..];
    }
  }
}
