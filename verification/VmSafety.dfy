/** What the loader's static checks buy: the interpreter, which indexes code, locals, functions
    and arrays without checking, stays inside of them in every reachable state. */
module VmSafety {
  import opened Bytes
  import opened Int64
  import opened Syntax
  import opened Abi
  import opened Vm
  import opened VmEntry
  import opened LinImage
  import opened Linbc1

  // ---------------------------------------------------------------- safe modules

  ghost predicate SmallArrays(arrN: seq<nat>)
  {
    forall i :: 0 <= i < |arrN| ==> arrN[i] <= MAX_ARR_LEN
  }

  /** Like a checked instruction, but host calls are allowed as well. */
  predicate SafeIns(ins: Ins, codeLen: nat, nFns: nat, nlocals: nat)
  {
    ins.op == IAbi || InsFits(ins, codeLen, nFns, nlocals)
  }

  ghost predicate SafeCode(code: seq<Ins>, nFns: nat, nlocals: nat)
  {
    forall i :: 0 <= i < |code| ==> SafeIns(code[i], |code|, nFns, nlocals)
  }

  ghost predicate SafeFn(f: Fn, nFns: nat)
  {
    && f.ok && f.nparams <= f.nlocals <= Vm.MAX_LOCALS
    && |f.arrN| == f.nlocals && SmallArrays(f.arrN) && ArraysBefore(f.arrN, |f.arrN|) <= MAX_ARRS
    && SafeCode(f.code, nFns, f.nlocals)
  }

  ghost predicate SafeModule(fns: seq<Fn>)
  {
    forall i :: 0 <= i < |fns| ==> SafeFn(fns[i], |fns|)
  }

  /** Some instruction calls a function without parameters.  Without one, no call can lack
      room for its result. */
  ghost predicate CallsBare(fns: seq<Fn>)
  {
    exists f, i :: BareCall(fns, f, i)
  }

  ghost predicate BareCall(fns: seq<Fn>, f: Fn, i: nat)
  {
    f in fns && i < |f.code| && f.code[i].op == ICall && 0 <= f.code[i].a < |fns| && fns[f.code[i].a].nparams == 0
  }

  ghost predicate Hostless(f: Fn)
  {
    forall i :: 0 <= i < |f.code| ==> f.code[i].op != IAbi
  }

  ghost predicate NoHostCalls(fns: seq<Fn>)
  {
    forall i :: 0 <= i < |fns| ==> Hostless(fns[i])
  }

  // ---------------------------------------------------------------- loaded modules are safe

  lemma {:induction false} BoundUpdate(d: seq<nat>, k: nat, v: nat, n: nat)
    requires k < |d| && n <= |d|
    ensures ArraysBefore(d[k := v], n) <= ArraysBefore(d, n) + if k < n then 1 else 0
  {
    if n > 0 { BoundUpdate(d, k, v, n - 1); }
  }

  lemma {:induction false} BoundTake(d: seq<nat>, n: nat, m: nat)
    requires n <= m <= |d|
    ensures ArraysBefore(d[..m], n) == ArraysBefore(d, n)
  {
    if n > 0 { BoundTake(d, n - 1, m); }
  }

  lemma {:induction false} BoundZeros(d: seq<nat>, n: nat)
    requires n <= |d| && forall i :: 0 <= i < n ==> d[i] == 0
    ensures ArraysBefore(d, n) == 0
  {
    if n > 0 { BoundZeros(d, n - 1); }
  }

  lemma {:induction false} FillBound(d: Dense, arrs: seq<ArrDecl>, n: nat)
    requires n <= |d| && SmallArrays(d) && forall i :: 0 <= i < |arrs| ==> arrs[i].len <= MAX_ARR_LEN
    ensures SmallArrays(Fill(d, arrs)) && ArraysBefore(Fill(d, arrs), n) <= ArraysBefore(d, n) + |arrs|
    decreases |arrs|
  {
    if arrs != [] {
      var d' := SetDense(d, arrs[0]);
      if arrs[0].local < Vm.MAX_LOCALS {
        BoundUpdate(d, arrs[0].local, arrs[0].len, n);
      }
      FillBound(d', arrs[1..], n);
    }
  }

  lemma DeclIsSafe(f: FnDecl, nStrings: nat, nFns: nat)
    requires FnFits(f, nStrings, nFns)
    ensures SafeFn(Materialize(f), nFns) && Hostless(Materialize(f))
  {
    hide ArraysBefore;
    var dense, n := Fill(NoArrays(), f.arrs), f.nlocals;
    BoundZeros(NoArrays(), n);
    FillBound(NoArrays(), f.arrs, n);
    BoundTake(dense, n, n);
    var fn := Materialize(f);
    assert fn.arrN == dense[..n];
    assert SmallArrays(fn.arrN);
    assert SafeCode(fn.code, nFns, n);
  }

  /** Every image the loader accepts becomes a safe module. */
  lemma LoadedIsSafe(h: Hash, img: bytes, im: Image)
    requires Load(h, img) == Loaded(im)
    ensures Named(im.strings, im.fns) && SafeModule(Table(im.fns)) && NoHostCalls(Table(im.fns))
  {
    hide Load, Seal;
    LoadExact(h, img, im);
    ValidIsSafe(im);
  }

  lemma ValidIsSafe(im: Image)
    requires ValidImage(im)
    ensures Named(im.strings, im.fns) && SafeModule(Table(im.fns)) && NoHostCalls(Table(im.fns))
  {
    hide FnFits, SafeFn, Materialize;
    var s, n := |im.strings|, |im.fns|;
    forall i | 0 <= i < n ensures im.fns[i].nlocals <= Vm.MAX_LOCALS && im.fns[i].name < s {
      NameFits(im.fns[i], s, n);
    }
    var fns := Table(im.fns);
    forall i | 0 <= i < n ensures SafeFn(fns[i], n) && Hostless(fns[i]) {
      DeclIsSafe(im.fns[i], s, n);
    }
  }

  lemma NameFits(f: FnDecl, nStrings: nat, nFns: nat)
    requires FnFits(f, nStrings, nFns)
    ensures f.name < nStrings && f.nlocals <= Vm.MAX_LOCALS
  {
  }

  // ---------------------------------------------------------------- entering a function

  /** A safe function can always be entered with the right number of arguments. */
  lemma EntersSafely(f: Fn, nFns: nat, args: seq<i64>)
    requires SafeFn(f, nFns) && |args| == f.nparams
    ensures var e := EnterFn(f, args); e.Ready? && e.frame.Shape() && e.frame.pc == 0 && e.frame.stack == []
    ensures Entered(f, args, EnterFn(f, args).frame)
  {
    hide EnterFn;
    EntryLaw(f, args);
  }

  /** Entering a function of an accepted image: every declared array is a zeroed array of exactly its
      length, bound to its local, and no two locals share one. */
  lemma LoadedEnters(h: Hash, img: bytes, im: Image, fi: nat, args: seq<i64>)
    requires Load(h, img) == Loaded(im) && Named(im.strings, im.fns)
    requires fi < |im.fns| && |args| == im.fns[fi].nparams
    ensures EnterFn(Table(im.fns)[fi], args).Ready?
    ensures var d, fr := im.fns[fi], EnterFn(Table(im.fns)[fi], args).frame;
            && |fr.locals| == 64 && |fr.pool| == 8
            && (forall k :: 0 <= k < |d.arrs| ==> BindsArray(fr, d.arrs[k]))
            && (forall j, k :: 0 <= j < k < |d.arrs| ==> fr.locals[d.arrs[j].local] != fr.locals[d.arrs[k].local])
            && (forall i :: 0 <= i < 64 && NoArrayAt(d, i) ==> fr.locals[i] == if i < |args| then args[i] else 0)
  {
    hide Load, SafeModule, NoHostCalls, EnterFn, ZeroArray;
    LoadedIsSafe(h, img, im);
    LoadedEntry(h, img, im, fi);
    var f, d := Table(im.fns)[fi], im.fns[fi];
    SafeAt(Table(im.fns), fi);
    EntersSafely(f, |im.fns|, args);
    ArraysInFrame(d, f, args, EnterFn(f, args).frame);
  }

  ghost predicate BindsArray(fr: Frame, a: ArrDecl)
  {
    && a.local < |fr.locals| && 0 <= fr.locals[a.local] < |fr.pool|
    && |fr.pool[fr.locals[a.local]]| == a.len
    && forall i :: 0 <= i < a.len ==> fr.pool[fr.locals[a.local]][i] == 0
  }

  lemma SafeAt(fns: seq<Fn>, fi: nat)
    requires SafeModule(fns) && fi < |fns|
    ensures SafeFn(fns[fi], |fns|)
  {
  }

  lemma ArraysInFrame(d: FnDecl, f: Fn, args: seq<i64>, fr: Frame)
    requires EntryOf(d, f) && ArrsFit(d.arrs, d.nlocals) && d.nlocals <= 64 && Entered(f, args, fr)
    ensures forall k :: 0 <= k < |d.arrs| ==> BindsArray(fr, d.arrs[k])
    ensures forall j, k :: 0 <= j < k < |d.arrs| ==> fr.locals[d.arrs[j].local] != fr.locals[d.arrs[k].local]
    ensures forall i :: 0 <= i < 64 && NoArrayAt(d, i) ==> fr.locals[i] == if i < |args| then args[i] else 0
  {
    forall k | 0 <= k < |d.arrs| ensures BindsArray(fr, d.arrs[k]) {
      assert IsArray(f.arrN, d.arrs[k].local);
    }
    forall j, k | 0 <= j < k < |d.arrs| ensures fr.locals[d.arrs[j].local] != fr.locals[d.arrs[k].local] {
      var x, y := d.arrs[j].local, d.arrs[k].local;
      assert IsArray(f.arrN, x) && IsArray(f.arrN, y);
      if x < y { ArraysGrow(f.arrN, x, y); } else { ArraysGrow(f.arrN, y, x); }
    }
    forall i | 0 <= i < 64 && NoArrayAt(d, i) ensures fr.locals[i] == if i < |args| then args[i] else 0 {
      assert !IsArray(f.arrN, i);
    }
  }

  // ---------------------------------------------------------------- one instruction

  /** The failures that checked code can end in. */
  const RUNTIME_ERRORS: set<Failure> := {VmDepth, VmStepLimit, VmStackOverflow, VmStackUnderflow, VmDivZero}

  ghost predicate SafeResult(ctx: Ctx, fr: Frame, ins: Ins, codeLen: nat, r: StepResult)
  {
    match r
    case Fault => false
    case Go(fr') => fr'.Shape() && (fr'.pc == fr.pc || fr'.pc < codeLen)
    case Enter(fr', callee, args) =>
      && ins.op == ICall && 0 <= ins.a == callee < |ctx.fns| && |args| == ctx.fns[callee].nparams
      && fr'.Shape() && fr'.pc == fr.pc && |fr'.stack| + |args| <= MAX_STACK
    case Halt(_, sp) => 1 <= sp <= MAX_STACK
    case Trap(e) => ins.op != IAbi ==> e in RUNTIME_ERRORS
  }

  /** Whatever state of the right shape it starts in, a checked instruction touches nothing
      outside of the frame and leaves a frame of the right shape and a program counter inside of
      the code. */
  lemma StepSafe(ctx: Ctx, fr: Frame, ins: Ins, codeLen: nat, nlocals: nat)
    requires fr.Shape() && nlocals <= Vm.MAX_LOCALS && SafeIns(ins, codeLen, |ctx.fns|, nlocals)
    ensures SafeResult(ctx, fr, ins, codeLen, StepIns(ctx, fr, ins))
  {
    hide Binary, StepAbi;
    if ins.op == IAbi {
      HostSafe(ctx, fr, ins.a);
    } else if |fr.stack| >= 2 {
      BinarySafe(ins.op, fr.stack[|fr.stack| - 2], fr.stack[|fr.stack| - 1]);
    }
  }

  lemma BinarySafe(op: VmOp, x: i64, y: i64)
    ensures (op in {IAdd, ISub, IMul, IDiv, IMod, IAnd, IOr, IXor, IShl, IShr, IUshr, IEq, INe, ILt, IGt, ILe, IGe}
             && Binary(op, x, y).Err64?) ==> Binary(op, x, y).err == VmDivZero
  {
  }

  lemma HostSafe(ctx: Ctx, fr: Frame, a: i64)
    requires fr.Shape()
    ensures var r := StepAbi(ctx, fr, a); r.Trap? || (r.Go? && r.frame.Shape() && r.frame.pc == fr.pc)
  {
    hide Dispatch;
    if 0 <= a <= 255 && AbiAllowed(ctx, a) {
      DispatchPops(ctx.host.view, a, fr.stack);
    }
  }

  // ---------------------------------------------------------------- executions

  /** The run of a function reaches a call that passes no argument while the operand stack is
      full, and the callee returns: only then is there no room for the result. */
  ghost predicate FullCall(ctx: Ctx, fi: nat, args: seq<i64>, depth: nat, steps: nat)
    decreases Left(ctx, steps), 1
  {
    && depth <= MAX_CALL_DEPTH && fi < |ctx.fns| && ctx.fns[fi].ok && |args| == ctx.fns[fi].nparams
    && EnterFn(ctx.fns[fi], args).Ready?
    && FullCallFrom(ctx, ctx.fns[fi].code, EnterFn(ctx.fns[fi], args).frame, depth, steps)
  }

  ghost predicate FullCallFrom(ctx: Ctx, code: seq<Ins>, fr: Frame, depth: nat, steps: nat)
    decreases Left(ctx, steps), 0
  {
    && fr.pc < |code| && steps + 1 <= ctx.stepLimit
    && match StepIns(ctx, fr.At(fr.pc + 1), code[fr.pc])
       case Go(next) => FullCallFrom(ctx, code, next, depth, steps + 1)
       case Enter(rest, callee, args) =>
         || FullCall(ctx, callee, args, depth + 1, steps + 1)
         || var call := Exec(ctx, callee, args, depth + 1, steps + 1);
            call.Done? && ((args == [] && |rest.stack| == MAX_STACK)
                           || FullCallFrom(ctx, code, rest.Push(call.val), depth, call.steps))
       case Halt(_, _) => false
       case Trap(_) => false
       case Fault => false
  }

  /** A fault happens exactly at a call without room, only run-time failures happen unless the
      host is called, and never more than one step beyond the limit. */
  ghost predicate SafeRun(ctx: Ctx, steps: nat, r: Run, full: bool)
  {
    && (r.Faulted? <==> full) && (full ==> CallsBare(ctx.fns))
    && match r
       case Faulted => true
       case Failed(e, s) =>
         (NoHostCalls(ctx.fns) ==> e in RUNTIME_ERRORS) && (steps <= ctx.stepLimit ==> s <= ctx.stepLimit + 1)
       case Done(_, sp, s) => sp <= MAX_STACK && (steps <= ctx.stepLimit ==> s <= ctx.stepLimit)
  }

  /** Safety of whole executions, over all call trees. */
  lemma {:induction false} ExecSafe(ctx: Ctx, fi: nat, args: seq<i64>, depth: nat, steps: nat)
    requires SafeModule(ctx.fns) && fi < |ctx.fns| && |args| == ctx.fns[fi].nparams
    ensures SafeRun(ctx, steps, Exec(ctx, fi, args, depth, steps), FullCall(ctx, fi, args, depth, steps))
    decreases Left(ctx, steps), 1
  {
    hide SafeCode, StepIns, EnterFn, FullCallFrom, CallsBare;
    var f := ctx.fns[fi];
    EntersSafely(f, |ctx.fns|, args);
    if depth <= MAX_CALL_DEPTH {
      LoopSafe(ctx, fi, EnterFn(f, args).frame, depth, steps);
    }
  }

  lemma {:induction false} LoopSafe(ctx: Ctx, fi: nat, fr: Frame, depth: nat, steps: nat)
    requires SafeModule(ctx.fns) && fi < |ctx.fns| && fr.Shape()
    ensures SafeRun(ctx, steps, Loop(ctx, ctx.fns[fi].code, fr, depth, steps),
                    FullCallFrom(ctx, ctx.fns[fi].code, fr, depth, steps))
    decreases Left(ctx, steps), 0
  {
    hide StepIns, Exec, SafeFn, SafeIns, CallsBare, Hostless, FullCall;
    var f := ctx.fns[fi];
    if fr.pc < |f.code| && steps + 1 <= ctx.stepLimit {
      var ins := f.code[fr.pc];
      CodeIsSafe(f, |ctx.fns|, fr.pc);
      StepSafe(ctx, fr.At(fr.pc + 1), ins, |f.code|, f.nlocals);
      var r := StepIns(ctx, fr.At(fr.pc + 1), ins);
      if r.Go? {
        LoopSafe(ctx, fi, r.frame, depth, steps + 1);
      } else if r.Trap? {
        HostlessStep(ctx, fi, fr.pc);
      } else if r.Enter? {
        ExecSafe(ctx, r.callee, r.args, depth + 1, steps + 1);
        var call := Exec(ctx, r.callee, r.args, depth + 1, steps + 1);
        if call.Done? {
          if |r.frame.stack| >= MAX_STACK {
            BareFault(ctx, fi, fr.pc, r);
          } else {
            LoopSafe(ctx, fi, r.frame.Push(call.val), depth, call.steps);
          }
        }
      }
    }
  }

  lemma CodeIsSafe(f: Fn, nFns: nat, pc: nat)
    requires SafeFn(f, nFns) && pc < |f.code|
    ensures SafeIns(f.code[pc], |f.code|, nFns, f.nlocals) && f.nlocals <= Vm.MAX_LOCALS
  {
  }

  lemma HostlessStep(ctx: Ctx, fi: nat, pc: nat)
    requires fi < |ctx.fns| && pc < |ctx.fns[fi].code|
    ensures NoHostCalls(ctx.fns) ==> ctx.fns[fi].code[pc].op != IAbi
  {
  }

  lemma BareFault(ctx: Ctx, fi: nat, pc: nat, r: StepResult)
    requires fi < |ctx.fns| && pc < |ctx.fns[fi].code| && r.Enter?
    requires ctx.fns[fi].code[pc].op == ICall && 0 <= ctx.fns[fi].code[pc].a == r.callee < |ctx.fns|
    requires |r.args| == ctx.fns[r.callee].nparams && |r.frame.stack| + |r.args| <= MAX_STACK <= |r.frame.stack|
    ensures CallsBare(ctx.fns)
  {
    assert BareCall(ctx.fns, ctx.fns[fi], pc);
  }

  /** For every image the loader accepts, every function of it and every argument list of the
      right length: nothing outside of the code, the locals, the arrays, the function table, the
      frames and the operand stack is touched, except that a call without arguments on a full
      stack has no room for its result; and the only failures are those of a running program. */
  lemma LoadedRunsSafely(h: Hash, img: bytes, im: Image, ctx: Ctx, fi: nat, args: seq<i64>)
    requires Load(h, img) == Loaded(im)
    requires Named(im.strings, im.fns) && ctx.fns == Table(im.fns)
    requires fi < |ctx.fns| && |args| == ctx.fns[fi].nparams
    ensures var r := Exec(ctx, fi, args, 0, 0);
            && (r.Faulted? <==> FullCall(ctx, fi, args, 0, 0))
            && (r.Faulted? ==> CallsBare(ctx.fns))
            && (r.Failed? ==> r.err in RUNTIME_ERRORS && r.steps <= ctx.stepLimit + 1)
            && (r.Done? ==> r.sp <= MAX_STACK && r.steps <= ctx.stepLimit)
  {
    hide Load, Exec, SafeModule, NoHostCalls, CallsBare, Table, FullCall;
    LoadedIsSafe(h, img, im);
    ExecSafe(ctx, fi, args, 0, 0);
  }

  // ---------------------------------------------------------------- a call on a full stack

  function Pushes(n: nat): (r: seq<Ins>)
    ensures |r| == n
  {
    seq(n, _ => Ins(IPush, 0))
  }

  /** Fills the operand stack and calls a parameterless function. */
  function FullStackImage(): Image
  {
    Image(1, [[0x66]], [], [],
          [FnDecl(0, 0, 0, [], Pushes(MAX_STACK) + [Ins(ICall, 1), Ins(IRet, 0)]),
           FnDecl(0, 0, 0, [], [Ins(IPush, 7), Ins(IRet, 0)])])
  }

  lemma FullStackValid()
    ensures ValidImage(FullStackImage())
  {
    var im := FullStackImage();
    assert Lengths(im.strings) == [1] && Total([1]) == 1 + Total([1][1..]);
    var n := CodeLengths(im.fns);
    assert n == [258, 2] && n[1..] == [2] && n[1..][1..] == [];
  }

  lemma {:induction false} PushRun(ctx: Ctx, code: seq<Ins>, n: nat, fr: Frame)
    requires n <= MAX_STACK <= |code| && code[..MAX_STACK] == Pushes(MAX_STACK) && ctx.stepLimit >= 300
    requires fr.pc == 0 && fr.stack == []
    ensures Loop(ctx, code, fr, 0, 0) == Loop(ctx, code, fr.(pc := n, stack := Zeros(n)), 0, n)
    decreases n
  {
    if n == 0 {
      assert fr == fr.(pc := 0, stack := Zeros(0));
    } else {
      PushRun(ctx, code, n - 1, fr);
      assert code[n - 1] == code[..MAX_STACK][n - 1] == Ins(IPush, 0);
      assert Zeros(n - 1) + [0] == Zeros(n);
    }
  }

  lemma BareCallee(ctx: Ctx)
    requires ctx.fns == Table(FullStackImage().fns) && ctx.stepLimit >= 300
    ensures Exec(ctx, 1, [], 1, 257) == Done(7, 1, 259)
  {
    hide Loop, EnterFn, SafeModule;
    var f := ctx.fns[1];
    FullStackSafe();
    SafeCallee(ctx.fns);
    EntersSafely(f, 2, []);
    BareLoop(ctx, f.code, EnterFn(f, []).frame);
  }

  lemma SafeCallee(fns: seq<Fn>)
    requires fns == Table(FullStackImage().fns) && SafeModule(fns)
    ensures |fns| == 2 && SafeFn(fns[1], 2) && fns[1].ok && fns[1].nparams == 0
    ensures fns[1].code == [Ins(IPush, 7), Ins(IRet, 0)]
  {
  }

  lemma BareLoop(ctx: Ctx, code: seq<Ins>, fr: Frame)
    requires code == [Ins(IPush, 7), Ins(IRet, 0)] && fr.pc == 0 && fr.stack == [] && ctx.stepLimit >= 300
    ensures Loop(ctx, code, fr, 1, 257) == Done(7, 1, 259)
  {
    hide Exec;
    var fr1 := fr.At(1).Push(7);
    assert Loop(ctx, code, fr, 1, 257) == Loop(ctx, code, fr1, 1, 258);
    assert fr1.stack == [7];
    assert Loop(ctx, code, fr1, 1, 258) == Done(7, 1, 259);
  }

  lemma FullStackSafe()
    ensures SafeModule(Table(FullStackImage().fns))
  {
    FullStackValid();
    ValidIsSafe(FullStackImage());
  }

  /** The condition on parameterless callees is needed: here is an image that the loader
      accepts, under every hash function, and whose run writes one cell past its stack. */
  lemma FullStackFaults(h: Hash, ctx: Ctx)
    requires ctx.fns == Table(FullStackImage().fns) && ctx.stepLimit >= 300
    ensures Load(h, Seal(h, FullStackImage())) == Loaded(FullStackImage())
    ensures Exec(ctx, 0, [], 0, 0) == Faulted
  {
    var im := FullStackImage();
    FullStackValid();
    LoadExact(h, Seal(h, im), im);
    FullStackRuns(ctx);
  }

  lemma FullStackRuns(ctx: Ctx)
    requires ctx.fns == Table(FullStackImage().fns) && ctx.stepLimit >= 300
    ensures Exec(ctx, 0, [], 0, 0) == Faulted
  {
    hide SafeFn, FullStackImage, Zeros, BindArgs, BindArrays, Table, Materialize, Binary, StepAbi, StepArray;
    FullStackCode(ctx.fns);
    var f := ctx.fns[0];
    FullStackSafe();
    EntersSafely(f, 2, []);
    var fr := EnterFn(f, []).frame;
    PushRun(ctx, f.code, MAX_STACK, fr);
    BareCallee(ctx);
    var full := fr.(pc := MAX_STACK, stack := Zeros(MAX_STACK));
    assert StepIns(ctx, full.At(257), f.code[256]).Enter?;
    assert Zeros(MAX_STACK)[MAX_STACK..] == [];
    assert full.Drop(0).stack == Zeros(MAX_STACK);
    assert Loop(ctx, f.code, full, 0, 256) == Faulted;
  }

  lemma FullStackCode(fns: seq<Fn>)
    requires fns == Table(FullStackImage().fns)
    ensures |fns| == 2 && fns[0].ok && fns[0].nparams == 0 && fns[1].nparams == 0
    ensures |fns[0].code| == 258 && fns[0].code[..MAX_STACK] == Pushes(MAX_STACK) && fns[0].code[256] == Ins(ICall, 1)
  {
    var code := Pushes(MAX_STACK) + [Ins(ICall, 1), Ins(IRet, 0)];
    assert fns[0].code == code;
    assert code[..MAX_STACK] == Pushes(MAX_STACK);
  }
}
