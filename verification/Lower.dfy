/** The lowerer, and why the code it emits computes what the evaluator computes. */
module Lower {
  import opened Seqs
  import opened Int64
  import opened Syntax
  import opened Semantics
  import opened Arena
  import opened Vm

  const LOWER_CAP: nat := 512

  datatype Emitted = Code(code: seq<Ins>) | EmitErr(err: Failure)

  function OpCode(op: BinOp): VmOp
  {
    match op
    case OpAdd => IAdd case OpSub => ISub case OpMul => IMul case OpDiv => IDiv case OpMod => IMod
    case OpEq => IEq case OpNeq => INe
    case OpLt => ILt case OpLte => ILe case OpGt => IGt case OpGte => IGe
  }

  function One(len: nat, ins: Ins): Emitted
  {
    if len >= LOWER_CAP then EmitErr(ArenaOom) else Code([ins])
  }

  function Append(e: Emitted, len: nat, ins: Ins): Emitted
  {
    if e.EmitErr? then e
    else if len + |e.code| >= LOWER_CAP then EmitErr(ArenaOom)
    else Code(e.code + [ins])
  }

  /** The code emitted for a node when `len` instructions are already there. */
  function Emit(a: seq<Node>, node: nat, env: seq<Binding>, len: nat): Emitted
    requires Acyclic(a)
    decreases Height(a, node)
  {
    if node >= |a| then EmitErr(InvalidNode)
    else
      Descends(a, node);
      match a[node].tag
      case TLit => One(len, Ins(IPush, a[node].val))
      case TVarRef =>
        var i := Lookup(env, a[node].name);
        if i == |env| then EmitErr(UndefVar) else One(len, Ins(ILoad, i % TWO63))
      case TPos => Emit(a, a[node].lhs, env, len)
      case TNeg => Append(Emit(a, a[node].lhs, env, len), len, Ins(INeg, 0))
      case TBin(op) =>
        var l := Emit(a, a[node].lhs, env, len);
        if l.EmitErr? then l
        else
          var r := Emit(a, a[node].rhs, env, len + |l.code|);
          if r.EmitErr? then r
          else Append(Code(l.code + r.code), len, Ins(OpCode(op), 0))
      case TCall => EmitErr(UndefVar)
      case TCallArg => EmitErr(UndefVar)
  }

  /** One level of the definition. */
  lemma EmitUnfolds(a: seq<Node>, node: nat, env: seq<Binding>, len: nat)
    requires Acyclic(a) && node < |a|
    ensures var n := a[node]; var e := Emit(a, node, env, len);
            match n.tag
            case TLit => e == One(len, Ins(IPush, n.val))
            case TVarRef => e == if Lookup(env, n.name) == |env| then EmitErr(UndefVar)
                                 else One(len, Ins(ILoad, Lookup(env, n.name) % TWO63))
            case TPos => e == Emit(a, n.lhs, env, len)
            case TNeg => e == Append(Emit(a, n.lhs, env, len), len, Ins(INeg, 0))
            case TBin(op) =>
              var l := Emit(a, n.lhs, env, len);
              e == if l.EmitErr? then l else
                   var r := Emit(a, n.rhs, env, len + |l.code|);
                   if r.EmitErr? then r else Append(Code(l.code + r.code), len, Ins(OpCode(op), 0))
            case TCall => e == EmitErr(UndefVar)
            case TCallArg => e == EmitErr(UndefVar)
  {
    hide Append, One, Lookup, OpCode;
  }

  lemma NoSuchNode(a: seq<Node>, node: nat, env: seq<Binding>, len: nat)
    requires Acyclic(a) && node >= |a|
    ensures Emit(a, node, env, len) == EmitErr(InvalidNode)
  {
  }

  function LowerArena(a: seq<Node>, root: nat, env: seq<Binding>): Emitted
    requires Acyclic(a)
  {
    Append(Emit(a, root, env, 0), 0, Ins(IRet, 0))
  }

  // ---------------------------------------------------------------- the lowerer as it runs

  class LoweredCode {
    var code: seq<Ins>

    constructor ()
      ensures code == []
    {
      code := [];
    }

    method Add(ins: Ins) returns (err: LinErr)
      modifies this
      ensures err == if |old(code)| >= LOWER_CAP then ArenaOom else LinOk
      ensures code == if err == LinOk then old(code) + [ins] else old(code)
    {
      if |code| >= LOWER_CAP { return ArenaOom; }
      code := code + [ins];
      err := LinOk;
    }

    method LowerEmit(a: seq<Node>, node: nat, env: seq<Binding>) returns (err: LinErr)
      requires Acyclic(a)
      modifies this
      ensures match Emit(a, node, env, old(|code|))
              case Code(c) => err == LinOk && code == old(code) + c
              case EmitErr(e) => err == e
      decreases Height(a, node)
    {
      hide Lookup, Emit, OpCode;
      if node >= |a| {
        NoSuchNode(a, node, env, |code|);
        return InvalidNode;
      }
      EmitUnfolds(a, node, env, |code|);
      Descends(a, node);
      match a[node].tag {
        case TLit =>
          err := Add(Ins(IPush, a[node].val));
        case TVarRef =>
          var i := FindBinding(env, a[node].name);
          if i == |env| { return UndefVar; }
          err := Add(Ins(ILoad, i % TWO63));
        case TPos =>
          err := LowerEmit(a, a[node].lhs, env);
        case TNeg =>
          err := LowerEmit(a, a[node].lhs, env);
          if err != LinOk { return; }
          err := Add(Ins(INeg, 0));
        case TBin(op) =>
          err := LowerEmit(a, a[node].lhs, env);
          if err != LinOk { return; }
          err := LowerEmit(a, a[node].rhs, env);
          if err != LinOk { return; }
          err := Add(Ins(OpCode(op), 0));
        case TCall => return UndefVar;
        case TCallArg => return UndefVar;
      }
    }

    method Lower(a: seq<Node>, root: nat, env: seq<Binding>) returns (err: LinErr)
      requires Acyclic(a)
      modifies this
      ensures match LowerArena(a, root, env)
              case Code(c) => err == LinOk && code == c
              case EmitErr(e) => err == e
    {
      code := [];
      err := LowerEmit(a, root, env);
      if err != LinOk { return; }
      err := Add(Ins(IRet, 0));
    }
  }

  // ---------------------------------------------------------------- correctness

  /** The locals hold the environment. */
  ghost predicate Bound(fr: Frame, env: seq<Binding>)
  {
    && |env| <= MAX_LOCALS == |fr.locals|
    && forall i :: 0 <= i < |env| ==> fr.locals[i] == env[i].val
  }

  /** The code `c` stands at the program counter, and there is room and time to run it. */
  ghost predicate Placed(ctx: Ctx, prog: seq<Ins>, c: seq<Ins>, fr: Frame, steps: nat, room: nat)
  {
    && fr.pc + |c| <= |prog| && prog[fr.pc..fr.pc + |c|] == c
    && |fr.stack| + room <= MAX_STACK && steps + |c| <= ctx.stepLimit
  }

  /** Running `c` from `fr` has the outcome `o`: a value is pushed and the machine stands
      behind `c`, or it stops with the division error. */
  ghost predicate Computes(ctx: Ctx, prog: seq<Ins>, c: seq<Ins>, fr: Frame, depth: nat, steps: nat, o: Outcome)
  {
    match o
    case Val(v) =>
      Loop(ctx, prog, fr, depth, steps) == Loop(ctx, prog, fr.At(fr.pc + |c|).Push(v), depth, steps + |c|)
    case Bad(e) =>
      && e == DivZero
      && var r := Loop(ctx, prog, fr, depth, steps);
      r.Failed? && r.err == VmDivZero && steps < r.steps <= steps + |c|
  }

  lemma OneStep(ctx: Ctx, prog: seq<Ins>, fr: Frame, depth: nat, steps: nat)
    requires fr.pc < |prog| && steps + 1 <= ctx.stepLimit
    ensures match StepIns(ctx, fr.At(fr.pc + 1), prog[fr.pc])
            case Go(fr') => Loop(ctx, prog, fr, depth, steps) == Loop(ctx, prog, fr', depth, steps + 1)
            case Trap(e) => Loop(ctx, prog, fr, depth, steps) == Failed(e, steps + 1)
            case _ => true
  {
    hide StepIns;
  }

  lemma LeafStep(ctx: Ctx, prog: seq<Ins>, ins: Ins, fr: Frame, depth: nat, steps: nat, v: i64)
    requires Placed(ctx, prog, [ins], fr, steps, 1)
    requires StepIns(ctx, fr.At(fr.pc + 1), ins) == Go(fr.At(fr.pc + 1).Push(v))
    ensures Computes(ctx, prog, [ins], fr, depth, steps, Val(v))
  {
    hide StepIns;
    assert prog[fr.pc] == prog[fr.pc..fr.pc + 1][0];
    OneStep(ctx, prog, fr, depth, steps);
  }

  lemma UnaryStep(ctx: Ctx, fr: Frame, v: i64)
    ensures StepIns(ctx, fr.Push(v), Ins(INeg, 0)) == Go(fr.Push(WSub(0, v)))
  {
    SnocParts(fr.stack, v);
  }

  /** The arithmetic instruction does what the operator means. */
  lemma BinaryStep(ctx: Ctx, fr: Frame, op: BinOp, x: i64, y: i64)
    ensures var s := StepIns(ctx, fr.Push(x).Push(y), Ins(OpCode(op), 0));
            match Apply(op, x, y)
            case Val(v) => s == Go(fr.Push(v))
            case Bad(e) => e == DivZero && s == Trap(VmDivZero)
  {
    hide Apply, Binary;
    var st := fr.stack + [x] + [y];
    assert st[|st| - 2] == x && st[|st| - 1] == y && st[..|st| - 2] == fr.stack;
    BinaryMeans(op, x, y);
  }

  lemma BinaryMeans(op: BinOp, x: i64, y: i64)
    ensures var r := Binary(OpCode(op), x, y);
            match Apply(op, x, y)
            case Val(v) => r == Ok64(v)
            case Bad(e) => e == DivZero && r.Err64? && r.err == VmDivZero
  {
    hide WAdd, WSub, WMul, WDiv, WRem;
  }

  /** Code that computes a value, followed by one instruction that finishes the job. */
  lemma ThenOne(ctx: Ctx, prog: seq<Ins>, c: seq<Ins>, ins: Ins, mid: Frame, last: Frame, fr: Frame,
                depth: nat, steps: nat, o: Outcome)
    requires Placed(ctx, prog, c + [ins], fr, steps, 0) && mid.pc == fr.pc + |c|
    requires Loop(ctx, prog, fr, depth, steps) == Loop(ctx, prog, mid, depth, steps + |c|)
    requires last == fr.At(fr.pc + |c| + 1)
    requires match o
             case Val(v) => StepIns(ctx, mid.At(mid.pc + 1), ins) == Go(last.Push(v))
             case Bad(e) => e == DivZero && StepIns(ctx, mid.At(mid.pc + 1), ins) == Trap(VmDivZero)
    ensures Computes(ctx, prog, c + [ins], fr, depth, steps, o)
  {
    hide StepIns, Loop;
    SliceSnoc(prog, fr.pc, c, ins);
    OneStep(ctx, prog, mid, depth, steps + |c|);
  }

  lemma NegCorrect(ctx: Ctx, prog: seq<Ins>, c: seq<Ins>, fr: Frame, depth: nat, steps: nat, o: Outcome)
    requires Placed(ctx, prog, c + [Ins(INeg, 0)], fr, steps, 0)
    requires Computes(ctx, prog, c, fr, depth, steps, o)
    ensures Computes(ctx, prog, c + [Ins(INeg, 0)], fr, depth, steps, if o.Bad? then o else Val(WSub(0, o.v)))
  {
    hide StepIns, Loop, WSub;
    if o.Val? {
      var last := fr.At(fr.pc + |c| + 1);
      var mid := fr.At(fr.pc + |c|).Push(o.v);
      UnaryStep(ctx, last, o.v);
      ThenOne(ctx, prog, c, Ins(INeg, 0), mid, last, fr, depth, steps, Val(WSub(0, o.v)));
    }
  }

  lemma BinCorrect(ctx: Ctx, prog: seq<Ins>, l: seq<Ins>, r: seq<Ins>, op: BinOp, fr: Frame, mid: Frame,
                   depth: nat, steps: nat, x: i64, y: Outcome)
    requires Placed(ctx, prog, l + r + [Ins(OpCode(op), 0)], fr, steps, 0)
    requires mid == fr.At(fr.pc + |l|).Push(x)
    requires Loop(ctx, prog, fr, depth, steps) == Loop(ctx, prog, mid, depth, steps + |l|)
    requires Computes(ctx, prog, r, mid, depth, steps + |l|, y)
    ensures Computes(ctx, prog, l + r + [Ins(OpCode(op), 0)], fr, depth, steps, if y.Bad? then y else Apply(op, x, y.v))
  {
    hide StepIns, Loop, Apply;
    if y.Val? {
      var last := fr.At(fr.pc + |l + r| + 1);
      var end := mid.At(mid.pc + |r|).Push(y.v);
      BinaryStep(ctx, last, op, x, y.v);
      assert end.At(end.pc + 1) == last.Push(x).Push(y.v);
      ThenOne(ctx, prog, l + r, Ins(OpCode(op), 0), end, last, fr, depth, steps, Apply(op, x, y.v));
    }
  }

  lemma PlacedPrefix(ctx: Ctx, prog: seq<Ins>, c: seq<Ins>, d: seq<Ins>, fr: Frame, steps: nat, room: nat, less: nat)
    requires Placed(ctx, prog, c + d, fr, steps, room) && less <= room
    ensures Placed(ctx, prog, c, fr, steps, less)
  {
    SliceConcat(prog, fr.pc, c, d);
  }

  lemma PlacedAfter(ctx: Ctx, prog: seq<Ins>, c: seq<Ins>, d: seq<Ins>, fr: Frame, mid: Frame, x: i64,
                    steps: nat, room: nat)
    requires Placed(ctx, prog, c + d, fr, steps, room + 1) && mid == fr.At(fr.pc + |c|).Push(x)
    ensures Placed(ctx, prog, d, mid, steps + |c|, room)
  {
    SliceConcat(prog, fr.pc, c, d);
  }

  lemma LeafCorrect(ctx: Ctx, prog: seq<Ins>, a: seq<Node>, node: nat, env: seq<Binding>,
                    len: nat, fr: Frame, depth: nat, steps: nat)
    requires Acyclic(a) && Emit(a, node, env, len).Code? && (a[node].tag == TLit || a[node].tag == TVarRef)
    requires Bound(fr, env) && Placed(ctx, prog, Emit(a, node, env, len).code, fr, steps, 1)
    ensures Computes(ctx, prog, Emit(a, node, env, len).code, fr, depth, steps, EvalNode(a, node, env))
  {
    hide StepIns, Loop, Lookup, Computes;
    if a[node].tag == TLit {
      PushStep(ctx, fr.At(fr.pc + 1), a[node].val);
      LeafStep(ctx, prog, Ins(IPush, a[node].val), fr, depth, steps, a[node].val);
    } else {
      var i := Lookup(env, a[node].name);
      LoadStep(ctx, fr.At(fr.pc + 1), i);
      LeafStep(ctx, prog, Ins(ILoad, i % TWO63), fr, depth, steps, env[i].val);
    }
  }

  lemma SignParts(a: seq<Node>, node: nat, env: seq<Binding>, len: nat) returns (l: seq<Ins>)
    requires Acyclic(a) && Emit(a, node, env, len).Code? && (a[node].tag == TPos || a[node].tag == TNeg)
    ensures Height(a, a[node].lhs) < Height(a, node) && Emit(a, a[node].lhs, env, len) == Code(l)
    ensures Emit(a, node, env, len).code == if a[node].tag == TPos then l else l + [Ins(INeg, 0)]
    ensures var x := EvalNode(a, a[node].lhs, env);
            EvalNode(a, node, env) == if a[node].tag == TPos || x.Bad? then x else Val(WSub(0, x.v))
  {
    hide WSub;
    Descends(a, node);
    l := Emit(a, a[node].lhs, env, len).code;
  }

  lemma BinParts(a: seq<Node>, node: nat, env: seq<Binding>, len: nat, op: BinOp) returns (l: seq<Ins>, r: seq<Ins>)
    requires Acyclic(a) && Emit(a, node, env, len).Code? && a[node].tag == TBin(op)
    ensures Height(a, a[node].lhs) < Height(a, node) && Height(a, a[node].rhs) < Height(a, node)
    ensures Emit(a, a[node].lhs, env, len) == Code(l) && Emit(a, a[node].rhs, env, len + |l|) == Code(r)
    ensures Emit(a, node, env, len).code == l + r + [Ins(OpCode(op), 0)]
    ensures var x, y := EvalNode(a, a[node].lhs, env), EvalNode(a, a[node].rhs, env);
            EvalNode(a, node, env) == if x.Bad? then x else if y.Bad? then y else Apply(op, x.v, y.v)
  {
    hide Apply, OpCode;
    Descends(a, node);
    l := Emit(a, a[node].lhs, env, len).code;
    r := Emit(a, a[node].rhs, env, len + |l|).code;
  }

  /** If the left operand stops the machine, so does the whole. */
  lemma StopsEarly(ctx: Ctx, prog: seq<Ins>, c: seq<Ins>, d: seq<Ins>, fr: Frame, depth: nat, steps: nat, o: Outcome)
    requires o.Bad? && Computes(ctx, prog, c, fr, depth, steps, o)
    ensures Computes(ctx, prog, c + d, fr, depth, steps, o)
  {
    hide Loop;
  }

  lemma TagCases(a: seq<Node>, node: nat, env: seq<Binding>, len: nat)
    requires Acyclic(a) && Emit(a, node, env, len).Code?
    ensures node < |a| && (a[node].tag in {TLit, TVarRef, TPos, TNeg} || a[node].tag.TBin?)
  {
  }

  /** Running the emitted code pushes what the evaluator returns, or stops where it does. */
  lemma {:induction false} EmitCorrect(ctx: Ctx, prog: seq<Ins>, a: seq<Node>, node: nat, env: seq<Binding>,
                                       len: nat, fr: Frame, depth: nat, steps: nat)
    requires Acyclic(a) && Emit(a, node, env, len).Code? && Bound(fr, env)
    requires Placed(ctx, prog, Emit(a, node, env, len).code, fr, steps, Height(a, node))
    ensures Computes(ctx, prog, Emit(a, node, env, len).code, fr, depth, steps, EvalNode(a, node, env))
    decreases Height(a, node)
  {
    hide Loop, Apply, OpCode, Emit, EvalNode, Placed, WSub, Computes;
    var c := Emit(a, node, env, len).code;
    TagCases(a, node, env, len);
    PlacedPrefixAll(ctx, prog, c, fr, steps, Height(a, node), 1);
    PlacedPrefixAll(ctx, prog, c, fr, steps, Height(a, node), 0);
    if a[node].tag == TLit || a[node].tag == TVarRef {
      LeafCorrect(ctx, prog, a, node, env, len, fr, depth, steps);
    } else if a[node].tag.TBin? {
      var op := a[node].tag.op;
      var l, r := BinParts(a, node, env, len, op);
      var x, y := EvalNode(a, a[node].lhs, env), EvalNode(a, a[node].rhs, env);
      LeftPlaced(ctx, prog, l, r, Ins(OpCode(op), 0), fr, steps, Height(a, node), Height(a, a[node].lhs));
      EmitCorrect(ctx, prog, a, a[node].lhs, env, len, fr, depth, steps);
      if x.Val? {
        var mid := fr.At(fr.pc + |l|).Push(x.v);
        RightPlaced(ctx, prog, l, r, Ins(OpCode(op), 0), fr, mid, x.v, steps,
                    Height(a, node) - 1, Height(a, a[node].rhs));
        EmitCorrect(ctx, prog, a, a[node].rhs, env, len + |l|, mid, depth, steps + |l|);
      }
      BothCorrect(ctx, prog, l, r, op, fr, depth, steps, x, y);
    } else {
      var l := SignParts(a, node, env, len);
      var x := EvalNode(a, a[node].lhs, env);
      if a[node].tag == TNeg {
        PlacedPrefix(ctx, prog, l, [Ins(INeg, 0)], fr, steps, Height(a, node), Height(a, a[node].lhs));
        EmitCorrect(ctx, prog, a, a[node].lhs, env, len, fr, depth, steps);
        NegCorrect(ctx, prog, l, fr, depth, steps, x);
      } else {
        PlacedPrefixAll(ctx, prog, l, fr, steps, Height(a, node), Height(a, a[node].lhs));
        EmitCorrect(ctx, prog, a, a[node].lhs, env, len, fr, depth, steps);
      }
    }
  }

  lemma LeftPlaced(ctx: Ctx, prog: seq<Ins>, l: seq<Ins>, r: seq<Ins>, ins: Ins, fr: Frame,
                   steps: nat, room: nat, less: nat)
    requires Placed(ctx, prog, l + r + [ins], fr, steps, room) && less <= room
    ensures Placed(ctx, prog, l, fr, steps, less)
  {
    hide Placed;
    Regroup(l, r, [ins]);
    PlacedPrefix(ctx, prog, l, r + [ins], fr, steps, room, less);
  }

  lemma RightPlaced(ctx: Ctx, prog: seq<Ins>, l: seq<Ins>, r: seq<Ins>, ins: Ins, fr: Frame, mid: Frame, x: i64,
                    steps: nat, room: nat, less: nat)
    requires Placed(ctx, prog, l + r + [ins], fr, steps, room + 1) && less <= room
    requires mid == fr.At(fr.pc + |l|).Push(x)
    ensures Placed(ctx, prog, r, mid, steps + |l|, less)
  {
    hide Placed;
    Regroup(l, r, [ins]);
    PlacedAfter(ctx, prog, l, r + [ins], fr, mid, x, steps, room);
    PlacedPrefix(ctx, prog, r, [ins], mid, steps + |l|, room, less);
  }

  /** Two operands and their operator. */
  lemma BothCorrect(ctx: Ctx, prog: seq<Ins>, l: seq<Ins>, r: seq<Ins>, op: BinOp, fr: Frame, depth: nat, steps: nat,
                    x: Outcome, y: Outcome)
    requires Placed(ctx, prog, l + r + [Ins(OpCode(op), 0)], fr, steps, 0)
    requires Computes(ctx, prog, l, fr, depth, steps, x)
    requires x.Val? ==> Computes(ctx, prog, r, fr.At(fr.pc + |l|).Push(x.v), depth, steps + |l|, y)
    ensures Computes(ctx, prog, l + r + [Ins(OpCode(op), 0)], fr, depth, steps,
                     if x.Bad? then x else if y.Bad? then y else Apply(op, x.v, y.v))
  {
    hide Loop, Apply, OpCode, Placed;
    if x.Val? {
      BinCorrect(ctx, prog, l, r, op, fr, fr.At(fr.pc + |l|).Push(x.v), depth, steps, x.v, y);
    } else {
      Regroup(l, r, [Ins(OpCode(op), 0)]);
      StopsEarly(ctx, prog, l, r + [Ins(OpCode(op), 0)], fr, depth, steps, x);
    }
  }

  lemma PlacedPrefixAll(ctx: Ctx, prog: seq<Ins>, c: seq<Ins>, fr: Frame, steps: nat, room: nat, less: nat)
    requires Placed(ctx, prog, c, fr, steps, room) && less <= room
    ensures Placed(ctx, prog, c, fr, steps, less)
  {
  }

  lemma PushStep(ctx: Ctx, fr: Frame, v: i64)
    requires |fr.stack| < MAX_STACK
    ensures StepIns(ctx, fr, Ins(IPush, v)) == Go(fr.Push(v))
  {
  }

  lemma LoadStep(ctx: Ctx, fr: Frame, i: nat)
    requires |fr.stack| < MAX_STACK && i < |fr.locals| <= MAX_LOCALS
    ensures StepIns(ctx, fr, Ins(ILoad, i % TWO63)) == Go(fr.Push(fr.locals[i]))
  {
  }

  lemma RetStep(ctx: Ctx, fr: Frame, v: i64)
    ensures StepIns(ctx, fr.Push(v), Ins(IRet, 0)) == Halt(v, |fr.stack| + 1)
  {
  }

  // ---------------------------------------------------------------- whole functions

  function Values(env: seq<Binding>): (r: seq<i64>)
    ensures |r| == |env|
  {
    seq(|env|, i requires 0 <= i < |env| => env[i].val)
  }

  lemma {:induction false} ArgsBound(args: seq<i64>, i: nat, fr: Frame)
    requires i <= |args| <= |fr.locals| && fr.locals[..i] == args[..i]
    ensures var e := BindArgs([], args, i, fr);
            e.Ready? && e.frame.stack == fr.stack && e.frame.pc == fr.pc
            && |e.frame.locals| == |fr.locals| && e.frame.locals[..|args|] == args
    decreases |args| - i
  {
    if i < |args| {
      var next := fr.(locals := fr.locals[i := args[i]]);
      assert next.locals[..i + 1] == args[..i] + [args[i]] == args[..i + 1];
      ArgsBound(args, i + 1, next);
    }
  }

  lemma EnterBound(f: Fn, env: seq<Binding>)
    requires f.arrN == [] && |env| <= MAX_LOCALS
    ensures var e := EnterFn(f, Values(env));
            e.Ready? && e.frame.pc == 0 && e.frame.stack == [] && Bound(e.frame, env)
  {
    var e := BindArrays([], 0, Zeros(MAX_LOCALS), []);
    ArgsBound(Values(env), 0, e.frame);
    var r := EnterFn(f, Values(env)).frame;
    forall i | 0 <= i < |env| ensures r.locals[i] == env[i].val {
      assert r.locals[..|env|][i] == Values(env)[i];
    }
  }

  /** Compiler correctness: for every arena without cycles and every environment, the lowered
      function returns what the evaluator returns after one step per instruction and with exactly
      that value on the stack, or both report a division by zero.  Stack overflow, stack underflow
      and faults do not occur. */
  lemma LowerCorrect(ctx: Ctx, fi: nat, a: seq<Node>, root: nat, env: seq<Binding>, depth: nat, steps: nat)
    requires Acyclic(a) && |a| <= ARENA_CAP && |env| <= MAX_LOCALS
    requires LowerArena(a, root, env).Code?
    requires fi < |ctx.fns| && depth <= MAX_CALL_DEPTH
    requires ctx.fns[fi] == Fn(|env|, |env|, LowerArena(a, root, env).code, true, [])
    requires steps + |ctx.fns[fi].code| <= ctx.stepLimit
    ensures var r := Exec(ctx, fi, Values(env), depth, steps);
            match EvalNode(a, root, env)
            case Val(v) => r == Done(v, 1, steps + |ctx.fns[fi].code|)
            case Bad(e) => e == DivZero && r.Failed? && r.err == VmDivZero && r.steps < steps + |ctx.fns[fi].code|
  {
    hide StepIns;
    var prog := ctx.fns[fi].code;
    var c := Emit(a, root, env, 0).code;
    assert prog == c + [Ins(IRet, 0)];
    EnterBound(ctx.fns[fi], env);
    var fr := EnterFn(ctx.fns[fi], Values(env)).frame;
    assert prog[0..|c|] == c;
    EmitCorrect(ctx, prog, a, root, env, 0, fr, depth, steps);
    var o := EvalNode(a, root, env);
    assert Exec(ctx, fi, Values(env), depth, steps) == Loop(ctx, prog, fr, depth, steps);
    if o.Val? {
      var end := fr.At(|c|).Push(o.v);
      RetStep(ctx, fr.At(|c| + 1), o.v);
      assert end.At(|c| + 1) == fr.At(|c| + 1).Push(o.v);
    }
  }

  // ---------------------------------------------------------------- which trees can be lowered

  /** No calls, and every variable is bound. */
  predicate Lowerable(t: Expr, env: seq<Binding>)
  {
    match t
    case Lit(_) => true
    case Var(n) => Lookup(env, n) < |env|
    case Pos(e) => Lowerable(e, env)
    case Neg(e) => Lowerable(e, env)
    case Bin(_, l, r) => Lowerable(l, env) && Lowerable(r, env)
    case Call(_, _) => false
  }

  lemma Appended(e: Emitted, len: nat, ins: Ins)
    ensures if e.EmitErr? then Append(e, len, ins) == e
            else len + |e.code| < LOWER_CAP ==> Append(e, len, ins) == Code(e.code + [ins])
  {
  }

  /** Lowering a parsed tree emits at most one instruction per node; it fails exactly on
      calls and unbound variables, and the instruction limit is out of reach. */
  lemma {:induction false} EmitTree(a: seq<Node>, t: Expr, base: nat, env: seq<Binding>, len: nat)
    requires Acyclic(a) && Holds(a, t, base) && len + Size(t) <= LOWER_CAP
    ensures var e := Emit(a, base + Size(t) - 1, env, len);
            if Lowerable(t, env) then e.Code? && |e.code| <= Size(t) else e == EmitErr(UndefVar)
    decreases t, 1
  {
    hide Flat, Size, SizeAll, Lookup, Holds, Emit, Append, Acyclic;
    HoldsRoot(a, t, base);
    var node := base + Size(t) - 1;
    EmitUnfolds(a, node, env, len);
    match t {
      case Lit(v) => HoldsLeaf(a, t, base);
      case Var(n) => HoldsLeaf(a, t, base);
      case Pos(e) =>
        HoldsSigned(a, TPos, e, base);
        EmitTree(a, e, base, env, len);
      case Neg(e) =>
        HoldsSigned(a, TNeg, e, base);
        EmitTree(a, e, base, env, len);
        Appended(Emit(a, base + Size(e) - 1, env, len), len, Ins(INeg, 0));
      case Bin(op, l, r) => EmitBin(a, op, l, r, base, env, len);
      case Call(name, args) => HoldsCall(a, name, args, base);
    }
  }

  lemma {:induction false} EmitBin(a: seq<Node>, op: BinOp, l: Expr, r: Expr, base: nat, env: seq<Binding>, len: nat)
    requires Acyclic(a) && Holds(a, Bin(op, l, r), base) && len + Size(Bin(op, l, r)) <= LOWER_CAP
    ensures var e := Emit(a, base + Size(Bin(op, l, r)) - 1, env, len);
            if Lowerable(l, env) && Lowerable(r, env) then e.Code? && |e.code| <= Size(Bin(op, l, r))
            else e == EmitErr(UndefVar)
    decreases Bin(op, l, r), 0
  {
    hide Flat, Size, Lookup, Holds, Emit, Append, Acyclic, Lowerable, OpCode;
    HoldsBin(a, op, l, r, base);
    HoldsRoot(a, l, base);
    HoldsRoot(a, r, base + Size(l));
    EmitUnfolds(a, base + Size(l) + Size(r), env, len);
    var x := Emit(a, base + Size(l) - 1, env, len);
    EmitTree(a, l, base, env, len);
    if x.Code? {
      var y := Emit(a, base + Size(l) + Size(r) - 1, env, len + |x.code|);
      EmitTree(a, r, base + Size(l), env, len + |x.code|);
      if y.Code? { Appended(Code(x.code + y.code), len, Ins(OpCode(op), 0)); }
    }
  }
}
