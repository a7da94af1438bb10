/** The stack machine: one instruction at a time, function calls, and whole executions. */
module Vm {
  import opened Int64
  import opened Syntax
  import opened Region
  import opened Abi

  const MAX_LOCALS: nat := 64
  const MAX_STACK: nat := 256
  const MAX_CALL_DEPTH: nat := 192
  const MAX_ARRS: nat := 8
  const MAX_ARR_LEN: nat := 256
  const PROFILE_C0: nat := 2

  datatype VmOp =
    | IPush | ILoad | IStore
    | IAdd | ISub | IMul | IDiv | IMod | IAnd | IOr | IXor | INot | INeg | IShl | IShr | IUshr
    | IEq | INe | ILt | IGt | ILe | IGe | ILogNot
    | IJump | IJumpF | IJumpFKeep | IJumpTKeep
    | IPop | ICall | IRet | ILoadIdx | IStoreIdx | IArrLen | IAbi

  datatype Ins = Ins(op: VmOp, a: i64)

  /** `arrN[i]` is the length of the array bound to local `i`, or 0. */
  datatype Fn = Fn(nparams: nat, nlocals: nat, code: seq<Ins>, ok: bool, arrN: seq<nat>)

  datatype Host = NoHost | Host(view: AbiView, sameRegions: bool)

  datatype Ctx = Ctx(fns: seq<Fn>, host: Host, hasRegions: bool, profile: nat, abiVersion: nat, stepLimit: nat)

  predicate AbiAllowed(ctx: Ctx, id: nat)
  {
    && ctx.host.Host? && ctx.hasRegions
    && ctx.profile == PROFILE_C0
    && ctx.abiVersion == HOST_ABI_2 && ctx.host.view.version == HOST_ABI_2
    && ctx.host.sameRegions
    && IsEnabled(ctx.host.view, id)
  }

  /** A running function: the operand stack below the stack pointer, the locals, and the
      arrays up to their lengths.  Nothing else is ever read. */
  datatype Frame = Frame(pc: nat, stack: seq<i64>, locals: seq<i64>, pool: seq<seq<i64>>)
  {
    predicate Shape()
    {
      |stack| <= MAX_STACK && |locals| == MAX_LOCALS && |pool| == MAX_ARRS
    }

    function Top(): i64 requires stack != [] { stack[|stack| - 1] }
    function Drop(n: nat): Frame requires n <= |stack| { this.(stack := stack[..|stack| - n]) }
    function Push(v: i64): Frame { this.(stack := stack + [v]) }
    function At(target: nat): Frame { this.(pc := target) }
  }

  /** `Fault` stands for an access outside of the frame, which the C code does not check. */
  datatype StepResult =
    | Go(frame: Frame)
    | Enter(frame: Frame, callee: nat, args: seq<i64>)
    | Halt(val: i64, sp: nat)
    | Trap(err: Failure)
    | Fault

  function ArrayLoad(pool: seq<seq<i64>>, slot: nat, ix: i64): i64
  {
    if slot < |pool| && 0 <= ix < |pool[slot]| then pool[slot][ix] else 0
  }

  function ArrayStore(pool: seq<seq<i64>>, slot: nat, ix: i64, v: i64): (r: seq<seq<i64>>)
    ensures |r| == |pool|
  {
    if slot < |pool| && 0 <= ix < |pool[slot]| then
      var row: seq<i64> := pool[slot][ix := v];
      pool[slot := row]
    else pool
  }

  function ArrayLen(pool: seq<seq<i64>>, slot: nat): i64
  {
    if slot < |pool| then |pool[slot]| % TWO63 else 0
  }

  function Flag(b: bool): i64 { if b then 1 else 0 }

  /** The two-operand instructions; everything else is rejected like an unknown opcode. */
  function Binary(op: VmOp, x: i64, y: i64): (r: Result64)
  {
    match op
    case IAdd => Ok64(WAdd(x, y))
    case ISub => Ok64(WSub(x, y))
    case IMul => Ok64(WMul(x, y))
    case IDiv => if y == 0 then Err64(VmDivZero) else Ok64(WDiv(x, y))
    case IMod => if y == 0 then Err64(VmDivZero) else Ok64(WRem(x, y))
    case IAnd => Ok64(Bitwise64(And, x, y))
    case IOr => Ok64(Bitwise64(Or, x, y))
    case IXor => Ok64(Bitwise64(Xor, x, y))
    case IShl => Ok64(Shift(x, y, true))
    case IShr => Ok64(Shift(x, y, false))
    case IUshr => Ok64(ShiftUnsigned(x, y))
    case IEq => Ok64(Flag(x == y))
    case INe => Ok64(Flag(x != y))
    case ILt => Ok64(Flag(x < y))
    case IGt => Ok64(Flag(x > y))
    case ILe => Ok64(Flag(x <= y))
    case IGe => Ok64(Flag(x >= y))
    case _ => Err64(VmBadFn)
  }

  datatype Result64 = Ok64(v: i64) | Err64(err: Failure)

  function StepAbi(ctx: Ctx, fr: Frame, a: i64): StepResult
  {
    if a < 0 || a > 255 then Trap(VmBadFn)
    else if !AbiAllowed(ctx, a) then Trap(VmBadFn)
    else
      var (r, pops) := Dispatch(ctx.host.view, a, fr.stack);
      if r.vmError != LinOk then Trap(r.vmError)
      else if r.regionError != ROk && pops == 0 then Trap(VmBadFn)
      else if pops > |fr.stack| then Fault
      else if |fr.stack| - pops >= MAX_STACK then Trap(VmStackOverflow)
      else Go(fr.Drop(pops).Push(r.value))
  }

  function StepArray(fr: Frame, ins: Ins): StepResult
    requires ins.op in {ILoadIdx, IStoreIdx, IArrLen}
  {
    var sp, li := |fr.stack|, ToU64(ins.a);
    if ins.op == ILoadIdx then
      if sp == 0 then Trap(VmStackUnderflow)
      else if li >= |fr.locals| then Fault
      else Go(fr.Drop(1).Push(ArrayLoad(fr.pool, ToU64(fr.locals[li]), fr.Top())))
    else if ins.op == IStoreIdx then
      if sp < 2 then Trap(VmStackUnderflow)
      else if li >= |fr.locals| then Fault
      else Go(fr.Drop(2).(pool := ArrayStore(fr.pool, ToU64(fr.locals[li]), fr.stack[sp - 2], fr.stack[sp - 1])))
    else
      if sp >= MAX_STACK then Trap(VmStackOverflow)
      else if li >= |fr.locals| then Fault
      else Go(fr.Push(ArrayLen(fr.pool, ToU64(fr.locals[li]))))
  }

  /** One instruction; `fr.pc` is already behind it. */
  function StepIns(ctx: Ctx, fr: Frame, ins: Ins): StepResult
  {
    var sp, a := |fr.stack|, ins.a;
    match ins.op
    case IPush => if sp >= MAX_STACK then Trap(VmStackOverflow) else Go(fr.Push(a))
    case ILoad =>
      if sp >= MAX_STACK then Trap(VmStackOverflow)
      else if ToU64(a) >= |fr.locals| then Fault
      else Go(fr.Push(fr.locals[ToU64(a)]))
    case IStore =>
      if sp == 0 then Trap(VmStackUnderflow)
      else if ToU64(a) >= |fr.locals| then Fault
      else Go(fr.Drop(1).(locals := fr.locals[ToU64(a) := fr.Top()]))
    case IPop => if sp == 0 then Trap(VmStackUnderflow) else Go(fr.Drop(1))
    case INot => if sp == 0 then Trap(VmStackUnderflow) else Go(fr.Drop(1).Push(-1 - fr.Top()))
    case INeg => if sp == 0 then Trap(VmStackUnderflow) else Go(fr.Drop(1).Push(WSub(0, fr.Top())))
    case ILogNot => if sp == 0 then Trap(VmStackUnderflow) else Go(fr.Drop(1).Push(Flag(fr.Top() == 0)))
    case IJump => Go(fr.At(ToU64(a)))
    case IJumpF =>
      if sp == 0 then Trap(VmStackUnderflow)
      else if fr.Top() == 0 then Go(fr.Drop(1).At(ToU64(a))) else Go(fr.Drop(1))
    case IJumpFKeep =>
      if sp == 0 then Trap(VmStackUnderflow) else if fr.Top() == 0 then Go(fr.At(ToU64(a))) else Go(fr)
    case IJumpTKeep =>
      if sp == 0 then Trap(VmStackUnderflow) else if fr.Top() != 0 then Go(fr.At(ToU64(a))) else Go(fr)
    case IRet => if sp == 0 then Trap(VmStackUnderflow) else Halt(fr.Top(), sp)
    case ILoadIdx => StepArray(fr, ins)
    case IStoreIdx => StepArray(fr, ins)
    case IArrLen => StepArray(fr, ins)
    case ICall =>
      if ToU64(a) >= |ctx.fns| then Trap(VmBadFn)
      else
        var n := ctx.fns[ToU64(a)].nparams;
        if sp < n then Trap(VmStackUnderflow) else Enter(fr.Drop(n), ToU64(a), fr.stack[sp - n..])
    case IAbi => StepAbi(ctx, fr, a)
    case _ =>
      if sp < 2 then Trap(VmStackUnderflow)
      else
        var r := Binary(ins.op, fr.stack[sp - 2], fr.stack[sp - 1]);
        if r.Err64? then Trap(r.err) else Go(fr.Drop(2).Push(r.v))
  }

  // ---------------------------------------------------------------- entering a function

  datatype Entry = Ready(frame: Frame) | EntryTrap(err: Failure) | EntryFault

  function Zeros(n: nat): (r: seq<i64>)
    ensures |r| == n && forall i :: 0 <= i < n ==> r[i] == 0
  {
    seq(n, _ => 0)
  }

  /** Binds zeroed arrays to the locals from `i` on; the slots in `pool` so far are in use. */
  function BindArrays(arrN: seq<nat>, i: nat, locals: seq<i64>, pool: seq<seq<i64>>): Entry
    requires |pool| <= MAX_ARRS
    decreases |arrN| - i
  {
    if i >= |arrN| then Ready(Frame(0, [], locals, pool + seq(MAX_ARRS - |pool|, _ => [])))
    else if arrN[i] == 0 then BindArrays(arrN, i + 1, locals, pool)
    else if |pool| >= MAX_ARRS then EntryTrap(VmBadFn)
    else if arrN[i] > MAX_ARR_LEN || i >= |locals| then EntryFault
    else BindArrays(arrN, i + 1, locals[i := |pool|], pool + [Zeros(arrN[i])])
  }

  /** Passes the arguments from `i` on; a local that holds an array keeps it. */
  function BindArgs(arrN: seq<nat>, args: seq<i64>, i: nat, fr: Frame): Entry
    decreases |args| - i
  {
    if i >= |args| then Ready(fr)
    else if i < |arrN| && arrN[i] > 0 then BindArgs(arrN, args, i + 1, fr)
    else if i >= |fr.locals| then EntryFault
    else BindArgs(arrN, args, i + 1, fr.(locals := fr.locals[i := args[i]]))
  }

  function EnterFn(f: Fn, args: seq<i64>): Entry
  {
    var e := BindArrays(f.arrN, 0, Zeros(MAX_LOCALS), []);
    if e.Ready? then BindArgs(f.arrN, args, 0, e.frame) else e
  }

  // ---------------------------------------------------------------- executions

  datatype Run = Done(val: i64, sp: nat, steps: nat) | Failed(err: Failure, steps: nat) | Faulted

  function Left(ctx: Ctx, steps: nat): nat
  {
    if steps <= ctx.stepLimit then ctx.stepLimit - steps + 1 else 0
  }

  function Exec(ctx: Ctx, fi: nat, args: seq<i64>, depth: nat, steps: nat): (r: Run)
    ensures !r.Faulted? ==> r.steps >= steps
    decreases Left(ctx, steps), 1
  {
    if depth > MAX_CALL_DEPTH then Failed(VmDepth, steps)
    else if fi >= |ctx.fns| || !ctx.fns[fi].ok then Failed(VmBadFn, steps)
    else if |args| != ctx.fns[fi].nparams then Failed(VmArity, steps)
    else
      match EnterFn(ctx.fns[fi], args)
      case EntryTrap(e) => Failed(e, steps)
      case EntryFault => Faulted
      case Ready(fr) => Loop(ctx, ctx.fns[fi].code, fr, depth, steps)
  }

  function Loop(ctx: Ctx, code: seq<Ins>, fr: Frame, depth: nat, steps: nat): (r: Run)
    ensures !r.Faulted? ==> r.steps >= steps
    decreases Left(ctx, steps), 0
  {
    if fr.pc >= |code| then Done(0, |fr.stack|, steps)
    else if steps + 1 > ctx.stepLimit then Failed(VmStepLimit, steps + 1)
    else
      match StepIns(ctx, fr.At(fr.pc + 1), code[fr.pc])
      case Trap(e) => Failed(e, steps + 1)
      case Fault => Faulted
      case Halt(v, sp) => Done(v, sp, steps + 1)
      case Go(fr') => Loop(ctx, code, fr', depth, steps + 1)
      case Enter(fr', callee, args) =>
        match Exec(ctx, callee, args, depth + 1, steps + 1)
        case Faulted => Faulted
        case Failed(e, s) => Failed(e, s)
        case Done(v, _, s) =>
          if |fr'.stack| >= MAX_STACK then Faulted else Loop(ctx, code, fr'.Push(v), depth, s)
  }
}
