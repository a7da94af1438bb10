/** What the instructions of the machine do, said about the frame in front of and behind them. */
module VmLaws {
  import opened Int64
  import opened Syntax
  import opened Semantics
  import opened Bits
  import opened Arena
  import opened Region
  import opened Abi
  import opened Vm
  import opened Lower

  /** The frame with its `n` topmost values replaced by `v`. */
  ghost predicate Replaces(fr: Frame, n: nat, v: i64, r: StepResult)
  {
    n <= |fr.stack| && r == Go(Frame(fr.pc, fr.stack[..|fr.stack| - n] + [v], fr.locals, fr.pool))
  }

  ghost predicate PopsTo(fr: Frame, n: nat, pc: nat, r: StepResult)
  {
    n <= |fr.stack| && r == Go(Frame(pc, fr.stack[..|fr.stack| - n], fr.locals, fr.pool))
  }

  // ---------------------------------------------------------------- arithmetic and comparisons

  ghost predicate Stands(iop: VmOp, op: BinOp)
  {
    || (iop == IAdd && op == OpAdd) || (iop == ISub && op == OpSub) || (iop == IMul && op == OpMul)
    || (iop == IDiv && op == OpDiv) || (iop == IMod && op == OpMod)
    || (iop == IEq && op == OpEq) || (iop == INe && op == OpNeq) || (iop == ILt && op == OpLt)
    || (iop == ILe && op == OpLte) || (iop == IGt && op == OpGt) || (iop == IGe && op == OpGte)
  }

  lemma StandsIsCode(iop: VmOp, op: BinOp)
    requires Stands(iop, op)
    ensures iop == OpCode(op)
  {
  }

  /** An instruction with two operands, `y` on top. */
  lemma TwoOperands(ctx: Ctx, fr: Frame, ins: Ins)
    requires ins.op in {IAdd, ISub, IMul, IDiv, IMod, IAnd, IOr, IXor, IShl, IShr, IUshr, IEq, INe, ILt, IGt, ILe, IGe}
    ensures |fr.stack| < 2 ==> StepIns(ctx, fr, ins) == Trap(VmStackUnderflow)
    ensures |fr.stack| >= 2 ==>
              var r := Binary(ins.op, fr.stack[|fr.stack| - 2], fr.stack[|fr.stack| - 1]);
              if r.Ok64? then Replaces(fr, 2, r.v, StepIns(ctx, fr, ins)) else StepIns(ctx, fr, ins) == Trap(r.err)
  {
    hide Binary;
  }

  /** Arithmetic and comparison instructions have the outcome that the operator has over the
      integers; a zero divisor stops the machine. */
  lemma OperatorLaw(ctx: Ctx, fr: Frame, ins: Ins, op: BinOp)
    requires Stands(ins.op, op)
    ensures |fr.stack| < 2 ==> StepIns(ctx, fr, ins) == Trap(VmStackUnderflow)
    ensures |fr.stack| >= 2 ==>
              exists o :: Operates(op, fr.stack[|fr.stack| - 2], fr.stack[|fr.stack| - 1], o)
                          && if o.Val? then Replaces(fr, 2, o.v, StepIns(ctx, fr, ins))
                             else StepIns(ctx, fr, ins) == Trap(VmDivZero)
  {
    hide StepIns, Binary, Apply, Operates, Replaces;
    StandsIsCode(ins.op, op);
    TwoOperands(ctx, fr, ins);
    if |fr.stack| >= 2 {
      var x, y := fr.stack[|fr.stack| - 2], fr.stack[|fr.stack| - 1];
      BinaryMeans(op, x, y);
      ApplyOperates(op, x, y, Apply(op, x, y));
    }
  }

  // ---------------------------------------------------------------- bits and shifts

  ghost predicate AndBits(v: i64, x: i64, y: i64)
  {
    forall k: nat :: k < 64 ==> (BitOf(v, k) <==> BitOf(x, k) && BitOf(y, k))
  }

  ghost predicate OrBits(v: i64, x: i64, y: i64)
  {
    forall k: nat :: k < 64 ==> (BitOf(v, k) <==> BitOf(x, k) || BitOf(y, k))
  }

  ghost predicate XorBits(v: i64, x: i64, y: i64)
  {
    forall k: nat :: k < 64 ==> (BitOf(v, k) <==> BitOf(x, k) != BitOf(y, k))
  }

  ghost predicate FlippedBits(v: i64, x: i64)
  {
    forall k: nat :: k < 64 ==> (BitOf(v, k) <==> !BitOf(x, k))
  }

  /** The bitwise instructions, bit by bit. */
  lemma BitLaw(ctx: Ctx, fr: Frame, ins: Ins) returns (v: i64)
    requires ins.op in {IAnd, IOr, IXor} && |fr.stack| >= 2
    ensures Replaces(fr, 2, v, StepIns(ctx, fr, ins))
    ensures var x, y := fr.stack[|fr.stack| - 2], fr.stack[|fr.stack| - 1];
            && (ins.op == IAnd ==> AndBits(v, x, y))
            && (ins.op == IOr ==> OrBits(v, x, y))
            && (ins.op == IXor ==> XorBits(v, x, y))
  {
    hide StepIns, BitOf, Bitwise64;
    var x, y := fr.stack[|fr.stack| - 2], fr.stack[|fr.stack| - 1];
    var rule := if ins.op == IAnd then And else if ins.op == IOr then Or else Xor;
    v := Bitwise64(rule, x, y);
    TwoOperands(ctx, fr, ins);
    forall k: nat | k < 64 ensures BitOf(v, k) <==> BitRuleOf(rule, BitOf(x, k), BitOf(y, k)) {
      Bitwise64Bit(rule, x, y, k);
    }
  }

  /** Shifts multiply and divide by a power of two: to the left modulo 2^64, to the right rounding
      down, with the sign or on the bits without one.  A count outside of 0..63 gives zero. */
  lemma ShiftLaw(ctx: Ctx, fr: Frame, ins: Ins) returns (v: i64)
    requires ins.op in {IShl, IShr, IUshr} && |fr.stack| >= 2
    ensures Replaces(fr, 2, v, StepIns(ctx, fr, ins))
    ensures var x, y := fr.stack[|fr.stack| - 2], fr.stack[|fr.stack| - 1];
            if y < 0 || y >= 64 then v == 0
            else if ins.op == IShl then Congruent(v, x * Pow2(y))
            else if ins.op == IShr then Halved(x, y, v)
            else Halved(Unsigned(x), y, Unsigned(v))
  {
    hide StepIns, Halved, Congruent, Pow2, Unsigned;
    var x, y := fr.stack[|fr.stack| - 2], fr.stack[|fr.stack| - 1];
    v := if ins.op == IShl then Shift(x, y, true)
         else if ins.op == IShr then Shift(x, y, false)
         else ShiftUnsigned(x, y);
    TwoOperands(ctx, fr, ins);
    if 0 <= y < 64 {
      LeftShift(x, y);
      RightShift(x, y);
      UnsignedShift(x, y);
    }
  }

  /** Complement, negation and logical negation of the topmost value. */
  lemma UnaryLaw(ctx: Ctx, fr: Frame, ins: Ins) returns (v: i64)
    requires ins.op in {INot, INeg, ILogNot} && fr.stack != []
    ensures Replaces(fr, 1, v, StepIns(ctx, fr, ins))
    ensures var x: int := fr.stack[|fr.stack| - 1];
            && (ins.op == INot ==> FlippedBits(v, x))
            && (ins.op == INeg ==> Congruent(v, 0 - x))
            && (ins.op == ILogNot ==> v == if x == 0 then 1 else 0)
  {
    hide BitOf, WSub, Congruent;
    var x: int := fr.stack[|fr.stack| - 1];
    v := if ins.op == INot then -1 - x else if ins.op == INeg then WSub(0, x) else if x == 0 then 1 else 0;
    forall k: nat | k < 64 ensures BitOf(-1 - x, k) <==> !BitOf(x, k) { NotBits(x, k); }
    WrappedOps(0, x);
  }

  function Needed(op: VmOp): nat
  {
    match op
    case IStore | IPop | INot | INeg | ILogNot | IJumpF | IJumpFKeep | IJumpTKeep | IRet | ILoadIdx => 1
    case IAnd | IOr | IXor | IShl | IShr | IUshr | IStoreIdx => 2
    case _ => 0
  }

  /** With too few values on the stack the machine stops. */
  lemma Underflows(ctx: Ctx, fr: Frame, ins: Ins)
    requires |fr.stack| < Needed(ins.op)
    ensures StepIns(ctx, fr, ins) == Trap(VmStackUnderflow)
  {
    hide Binary, StepAbi;
  }

  // ---------------------------------------------------------------- stack, locals, jumps, calls

  /** Constants and locals go on top of the stack, if it holds less than 256 values. */
  lemma PushLaw(ctx: Ctx, fr: Frame, ins: Ins)
    requires ins.op in {IPush, ILoad} && (ins.op == ILoad ==> 0 <= ins.a < |fr.locals|)
    ensures |fr.stack| >= 256 ==> StepIns(ctx, fr, ins) == Trap(VmStackOverflow)
    ensures |fr.stack| < 256 ==>
              Replaces(fr, 0, if ins.op == IPush then ins.a else fr.locals[ins.a], StepIns(ctx, fr, ins))
  {
    assert fr.stack[..|fr.stack| - 0] == fr.stack;
  }

  /** The topmost value is dropped, or moved into a local. */
  lemma PopLaw(ctx: Ctx, fr: Frame, ins: Ins)
    requires ins.op in {IPop, IStore} && fr.stack != [] && (ins.op == IStore ==> 0 <= ins.a < |fr.locals|)
    ensures ins.op == IPop ==> PopsTo(fr, 1, fr.pc, StepIns(ctx, fr, ins))
    ensures ins.op == IStore ==>
              var n := |fr.stack| - 1;
              StepIns(ctx, fr, ins) == Go(Frame(fr.pc, fr.stack[..n], fr.locals[ins.a := fr.stack[n]], fr.pool))
  {
  }

  /** Jumps to an address: always; on zero, taking the value away; on zero or on anything else,
      leaving it. */
  lemma JumpLaw(ctx: Ctx, fr: Frame, ins: Ins)
    requires ins.op in {IJump, IJumpF, IJumpFKeep, IJumpTKeep} && ins.a >= 0 && (ins.op != IJump ==> fr.stack != [])
    ensures ins.op == IJump ==> PopsTo(fr, 0, ins.a, StepIns(ctx, fr, ins))
    ensures ins.op != IJump ==>
              var x := fr.stack[|fr.stack| - 1];
              && (ins.op == IJumpF ==> PopsTo(fr, 1, if x == 0 then ins.a else fr.pc, StepIns(ctx, fr, ins)))
              && (ins.op == IJumpFKeep ==> PopsTo(fr, 0, if x == 0 then ins.a else fr.pc, StepIns(ctx, fr, ins)))
              && (ins.op == IJumpTKeep ==> PopsTo(fr, 0, if x != 0 then ins.a else fr.pc, StepIns(ctx, fr, ins)))
  {
    assert fr.stack[..|fr.stack| - 0] == fr.stack;
  }

  /** A call takes as many values as the callee has parameters, in their order; a return hands over
      the topmost value. */
  lemma CallLaw(ctx: Ctx, fr: Frame, ins: Ins)
    requires ins.op in {ICall, IRet} && ins.a >= 0
    ensures ins.op == IRet && fr.stack != [] ==> StepIns(ctx, fr, ins) == Halt(fr.stack[|fr.stack| - 1], |fr.stack|)
    ensures ins.op == ICall && ins.a >= |ctx.fns| ==> StepIns(ctx, fr, ins) == Trap(VmBadFn)
    ensures ins.op == ICall && ins.a < |ctx.fns| ==>
              var n := ctx.fns[ins.a].nparams;
              if |fr.stack| < n then StepIns(ctx, fr, ins) == Trap(VmStackUnderflow)
              else
                var base := |fr.stack| - n;
                StepIns(ctx, fr, ins) ==
                  Enter(Frame(fr.pc, fr.stack[..base], fr.locals, fr.pool), ins.a, fr.stack[base..])
  {
  }

  // ---------------------------------------------------------------- arrays

  /** Local `li` holds the number of an array of the frame, and `ix` is inside of it. */
  ghost predicate Cell(fr: Frame, li: i64, ix: i64)
  {
    && 0 <= li < |fr.locals| && 0 <= fr.locals[li] < |fr.pool|
    && 0 <= ix < |fr.pool[fr.locals[li]]|
  }

  /** A load replaces the index by the cell, or by zero where there is none. */
  lemma LoadLaw(ctx: Ctx, fr: Frame, ins: Ins)
    requires ins.op == ILoadIdx && fr.stack != [] && 0 <= ins.a < |fr.locals| && |fr.pool| <= 8
    ensures var ix := fr.stack[|fr.stack| - 1];
            Replaces(fr, 1, if Cell(fr, ins.a, ix) then fr.pool[fr.locals[ins.a]][ix] else 0, StepIns(ctx, fr, ins))
  {
  }

  /** The frame after a store: outside of a cell nothing but the stack changes; otherwise exactly
      that cell holds the value. */
  ghost predicate Stored(fr: Frame, li: i64, ix: i64, v: i64, next: Frame)
  {
    && next.pc == fr.pc && next.locals == fr.locals && |next.pool| == |fr.pool|
    && |fr.stack| >= 2 && next.stack == fr.stack[..|fr.stack| - 2]
    && (forall s :: 0 <= s < |fr.pool| ==> |next.pool[s]| == |fr.pool[s]|)
    && (Cell(fr, li, ix) ==> next.pool[fr.locals[li]][ix] == v)
    && (forall s, i :: 0 <= s < |fr.pool| && 0 <= i < |fr.pool[s]| ==>
          next.pool[s][i] == fr.pool[s][i] || (Cell(fr, li, ix) && s == fr.locals[li] && i == ix))
  }

  lemma StoreLaw(ctx: Ctx, fr: Frame, ins: Ins) returns (next: Frame)
    requires ins.op == IStoreIdx && |fr.stack| >= 2 && 0 <= ins.a < |fr.locals| && |fr.pool| <= 8
    ensures StepIns(ctx, fr, ins) == Go(next)
    ensures Stored(fr, ins.a, fr.stack[|fr.stack| - 2], fr.stack[|fr.stack| - 1], next)
  {
    var r := StepIns(ctx, fr, ins);
    next := r.frame;
  }

  /** The length of the array of a local, or zero. */
  lemma LengthLaw(ctx: Ctx, fr: Frame, ins: Ins)
    requires ins.op == IArrLen && 0 <= ins.a < |fr.locals| && |fr.pool| <= 8
    requires forall s :: 0 <= s < |fr.pool| ==> |fr.pool[s]| <= 256
    ensures |fr.stack| >= 256 ==> StepIns(ctx, fr, ins) == Trap(VmStackOverflow)
    ensures |fr.stack| < 256 ==>
              var slot := fr.locals[ins.a];
              Replaces(fr, 0, if 0 <= slot < |fr.pool| then |fr.pool[slot]| else 0, StepIns(ctx, fr, ins))
  {
    assert fr.stack[..|fr.stack| - 0] == fr.stack;
  }

  // ---------------------------------------------------------------- host regions

  /** What a host call answers: the capacity of a bound region, a byte of its payload, or whether a
      range lies within it. */
  ghost predicate Answers(regions: RegionSet, a: i64, args: seq<i64>, v: i64)
  {
    || (a == 9 && |args| == 1 && IsBound(regions, args[0]) && v == 8 * |regions[args[0]].cells|)
    || (a == 10 && |args| == 3 && IsBound(regions, args[0]) && args[1] >= 0 && args[2] >= 0
        && v == if args[1] + args[2] <= regions[args[0]].payloadLen then 0 else 3)
    || (a == 11 && |args| == 2 && IsBound(regions, args[0]) && 0 <= args[1] < regions[args[0]].payloadLen
        && v == Payload(regions[args[0]])[args[1]])
  }

  /** The dispatcher's answer takes the place of the operands it consumes. */
  lemma HostStep(ctx: Ctx, fr: Frame, ins: Ins, r: AbiResult, pops: nat)
    requires ins.op == IAbi && 0 <= ins.a < 256 && AbiAllowed(ctx, ins.a) && |fr.stack| <= 256
    requires Dispatch(ctx.host.view, ins.a, fr.stack) == (r, pops)
    ensures 0 < pops <= |fr.stack| && r.vmError == LinOk ==> Replaces(fr, pops, r.value, StepIns(ctx, fr, ins))
    ensures pops == 0 && Refused(r) ==> StepIns(ctx, fr, ins) == Trap(VmBadFn)
  {
    hide Dispatch;
  }

  /** A host call that is allowed replaces its arguments by its answer, and stops the machine when
      it has none. */
  lemma HostLaw(ctx: Ctx, fr: Frame, ins: Ins, args: seq<i64>)
    requires ins.op == IAbi && 0 <= ins.a < 256 && AbiAllowed(ctx, ins.a) && Params(ins.a) == |args|
    requires |args| <= |fr.stack| <= 256 && fr.stack[|fr.stack| - |args|..] == args
    ensures forall v :: Answers(ctx.host.view.regions, ins.a, args, v) ==>
              Replaces(fr, |args|, v, StepIns(ctx, fr, ins))
    ensures (forall v :: !Answers(ctx.host.view.regions, ins.a, args, v)) ==>
              StepIns(ctx, fr, ins) == Trap(VmBadFn)
  {
    hide Payload, Dispatch, StepIns, Replaces, IsBound;
    var regions := ctx.host.view.regions;
    var front := fr.stack[..|fr.stack| - |args|];
    assert fr.stack == front + args;
    var (r, pops) := Dispatch(ctx.host.view, ins.a, fr.stack);
    HostStep(ctx, fr, ins, r, pops);
    if ins.a == 9 {
      assert args == [args[0]];
      DispatchCapacity(ctx.host.view, front, args[0]);
    } else if ins.a == 11 {
      assert args == [args[0], args[1]];
      DispatchLoads(ctx.host.view, front, args[0], args[1]);
    } else {
      assert args == [args[0], args[1], args[2]];
      DispatchChecks(ctx.host.view, front, args[0], args[1], args[2]);
    }
    assert pops > 0 ==> Answers(regions, ins.a, args, r.value);
  }

  /** A call is refused beyond 192 levels, without its function, or with the wrong number of
      arguments, in this order and before its first step; a function whose code runs out gives 0. */
  lemma CallGuards(ctx: Ctx, fi: nat, args: seq<i64>, depth: nat, steps: nat)
    ensures depth > 192 ==> Exec(ctx, fi, args, depth, steps) == Failed(VmDepth, steps)
    ensures depth <= 192 && (fi >= |ctx.fns| || !ctx.fns[fi].ok) ==>
              Exec(ctx, fi, args, depth, steps) == Failed(VmBadFn, steps)
    ensures depth <= 192 && fi < |ctx.fns| && ctx.fns[fi].ok && |args| != ctx.fns[fi].nparams ==>
              Exec(ctx, fi, args, depth, steps) == Failed(VmArity, steps)
    ensures forall code, fr: Frame ::
              fr.pc >= |code| ==> Loop(ctx, code, fr, depth, steps) == Done(0, |fr.stack|, steps)
  {
    hide EnterFn, StepIns;
  }

  // ---------------------------------------------------------------- the step budget

  /** What a run with a smaller budget does: the same, or it stops at the first step beyond it. */
  ghost predicate Budgeted(r: Run, small: Run, limit: nat)
  {
    || (small == r && (!r.Faulted? ==> r.steps <= limit))
    || (small == Failed(VmStepLimit, limit + 1) && (!r.Faulted? ==> r.steps > limit))
  }

  /** The step limit changes nothing about a call but where it ends: a call that needs no more steps
      gives the same result, and every other one fails with the step behind the limit. */
  lemma {:induction false} BudgetExact(ctx: Ctx, limit: nat, fi: nat, args: seq<i64>, depth: nat, steps: nat)
    requires steps <= limit <= ctx.stepLimit
    ensures Budgeted(Exec(ctx, fi, args, depth, steps),
                     Exec(ctx.(stepLimit := limit), fi, args, depth, steps), limit)
    decreases Left(ctx, steps), 1
  {
    hide StepIns, EnterFn, Loop;
    if fi < |ctx.fns| {
      var e := EnterFn(ctx.fns[fi], args);
      if e.Ready? { LoopBudget(ctx, limit, ctx.fns[fi].code, e.frame, depth, steps); }
    }
  }

  lemma {:induction false} LoopBudget(ctx: Ctx, limit: nat, code: seq<Ins>, fr: Frame, depth: nat, steps: nat)
    requires steps <= limit <= ctx.stepLimit
    ensures Budgeted(Loop(ctx, code, fr, depth, steps),
                     Loop(ctx.(stepLimit := limit), code, fr, depth, steps), limit)
    decreases Left(ctx, steps), 0
  {
    hide StepIns, Exec;
    var small := ctx.(stepLimit := limit);
    if fr.pc < |code| && steps < limit {
      var s := StepIns(ctx, fr.At(fr.pc + 1), code[fr.pc]);
      StepFree(ctx, small, fr.At(fr.pc + 1), code[fr.pc]);
      if s.Go? {
        LoopBudget(ctx, limit, code, s.frame, depth, steps + 1);
      } else if s.Enter? {
        BudgetExact(ctx, limit, s.callee, s.args, depth + 1, steps + 1);
        var r := Exec(ctx, s.callee, s.args, depth + 1, steps + 1);
        if r.Done? && r.steps <= limit && |s.frame.stack| < MAX_STACK {
          LoopBudget(ctx, limit, code, s.frame.Push(r.val), depth, r.steps);
        }
      }
    }
  }

  lemma StepFree(ctx: Ctx, small: Ctx, fr: Frame, ins: Ins)
    requires small == ctx.(stepLimit := small.stepLimit)
    ensures StepIns(small, fr, ins) == StepIns(ctx, fr, ins)
  {
    hide Binary, Dispatch;
  }
}
