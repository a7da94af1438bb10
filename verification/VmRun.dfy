/** The interpreter as it runs: fixed frames that are reused and never cleaned up completely,
    one per call depth, and a step counter shared by the whole call tree. */
module VmRun {
  import opened Int64
  import opened Syntax
  import opened Region
  import opened Abi
  import opened Vm

  /** One frame slot.  Stack cells above the stack pointer and array cells beyond the array
      lengths hold whatever an earlier call left there. */
  datatype Slot = Slot(locals: seq<i64>, stack: seq<i64>, pool: seq<seq<i64>>, poolLen: seq<nat>)
  {
    predicate Valid()
    {
      && |locals| == MAX_LOCALS && |stack| == MAX_STACK
      && |pool| == MAX_ARRS == |poolLen|
      && forall i :: 0 <= i < MAX_ARRS ==> |pool[i]| == MAX_ARR_LEN && poolLen[i] <= MAX_ARR_LEN
    }

    /** The part of the slot that the running function can see. */
    function Live(pc: nat, sp: nat): Frame
      requires Valid() && sp <= MAX_STACK
    {
      Frame(pc, stack[..sp], locals, Arrays())
    }

    function Arrays(): (r: seq<seq<i64>>)
      requires Valid()
      ensures |r| == MAX_ARRS
    {
      seq(MAX_ARRS, i requires 0 <= i < MAX_ARRS => pool[i][..poolLen[i]])
    }

    function SetStack(at: nat, v: i64): (r: Slot)
      requires Valid() && at < MAX_STACK
      ensures r.Valid()
    {
      this.(stack := stack[at := v])
    }

    function SetCell(arr: nat, ix: nat, v: i64): (r: Slot)
      requires Valid() && arr < MAX_ARRS && ix < MAX_ARR_LEN
      ensures r.Valid()
    {
      var row: seq<i64> := pool[arr][ix := v];
      this.(pool := pool[arr := row])
    }
  }

  datatype Micro =
    | MGo(slot: Slot, pc: nat, sp: nat)
    | MCall(callee: nat, sp: nat, n: nat)
    | MHalt(val: i64, sp: nat)
    | MTrap(err: Failure)
    | MFault

  /** What was done to the slot is what the specification does to the visible frame. */
  ghost predicate Refines(m: Micro, slot: Slot, pc: nat, spec: StepResult)
    requires slot.Valid()
  {
    match m
    case MGo(slot', pc', sp') => slot'.Valid() && sp' <= MAX_STACK && spec == Go(slot'.Live(pc', sp'))
    case MCall(callee, sp', n) =>
      sp' + n <= MAX_STACK && spec == Enter(slot.Live(pc, sp'), callee, slot.stack[sp'..sp' + n])
    case MHalt(v, sp') => spec == Halt(v, sp')
    case MTrap(e) => spec == Trap(e)
    case MFault => spec == Fault
  }

  lemma PushLive(slot: Slot, pc: nat, sp: nat, v: i64)
    requires slot.Valid() && sp < MAX_STACK
    ensures slot.SetStack(sp, v).Live(pc, sp + 1) == slot.Live(pc, sp).Push(v)
  {
    assert slot.stack[sp := v][..sp + 1] == slot.stack[..sp] + [v];
  }

  lemma DropLive(slot: Slot, pc: nat, sp: nat, n: nat)
    requires slot.Valid() && n <= sp <= MAX_STACK
    ensures slot.Live(pc, sp).Drop(n) == slot.Live(pc, sp - n)
  {
    assert slot.stack[..sp][..sp - n] == slot.stack[..sp - n];
  }

  lemma LocalLive(slot: Slot, pc: nat, sp: nat, li: nat, v: i64)
    requires slot.Valid() && sp <= MAX_STACK && li < MAX_LOCALS
    ensures var next := slot.(locals := slot.locals[li := v]);
            next.Valid() && next.Live(pc, sp) == slot.Live(pc, sp).(locals := slot.locals[li := v])
  {
    assert slot.(locals := slot.locals[li := v]).Arrays() == slot.Arrays();
  }

  lemma PushTurn(ctx: Ctx, fr: Frame, ins: Ins)
    requires ins.op in {IPush, ILoad}
    ensures StepIns(ctx, fr, ins) ==
              if |fr.stack| >= MAX_STACK then Trap(VmStackOverflow)
              else if ins.op == IPush then Go(fr.Push(ins.a))
              else if ToU64(ins.a) >= |fr.locals| then Fault
              else Go(fr.Push(fr.locals[ToU64(ins.a)]))
  {
    hide ToU64;
  }

  method StepPush(ctx: Ctx, slot: Slot, pc: nat, sp: nat, ins: Ins) returns (m: Micro)
    requires slot.Valid() && sp <= MAX_STACK && ins.op in {IPush, ILoad}
    ensures Refines(m, slot, pc, StepIns(ctx, slot.Live(pc, sp), ins))
  {
    hide StepIns, ToU64, Slot.Arrays;
    PushTurn(ctx, slot.Live(pc, sp), ins);
    if sp >= MAX_STACK { return MTrap(VmStackOverflow); }
    var v := ins.a;
    if ins.op == ILoad {
      if ToU64(ins.a) >= MAX_LOCALS { return MFault; }
      v := slot.locals[ToU64(ins.a)];
    }
    PushLive(slot, pc, sp, v);
    return MGo(slot.SetStack(sp, v), pc, sp + 1);
  }

  lemma PopTurn(ctx: Ctx, fr: Frame, ins: Ins)
    requires ins.op in {IStore, IPop}
    ensures StepIns(ctx, fr, ins) ==
              if fr.stack == [] then Trap(VmStackUnderflow)
              else if ins.op == IPop then Go(fr.Drop(1))
              else if ToU64(ins.a) >= |fr.locals| then Fault
              else Go(fr.Drop(1).(locals := fr.locals[ToU64(ins.a) := fr.Top()]))
  {
    hide ToU64;
  }

  method StepPop(ctx: Ctx, slot: Slot, pc: nat, sp: nat, ins: Ins) returns (m: Micro)
    requires slot.Valid() && sp <= MAX_STACK && ins.op in {IStore, IPop}
    ensures Refines(m, slot, pc, StepIns(ctx, slot.Live(pc, sp), ins))
  {
    hide StepIns, ToU64, Slot.Arrays;
    PopTurn(ctx, slot.Live(pc, sp), ins);
    if sp == 0 { return MTrap(VmStackUnderflow); }
    DropLive(slot, pc, sp, 1);
    if ins.op == IPop { return MGo(slot, pc, sp - 1); }
    var li := ToU64(ins.a);
    if li >= MAX_LOCALS { return MFault; }
    LocalLive(slot, pc, sp - 1, li, slot.stack[sp - 1]);
    return MGo(slot.(locals := slot.locals[li := slot.stack[sp - 1]]), pc, sp - 1);
  }

  lemma UnaryTurn(ctx: Ctx, fr: Frame, ins: Ins)
    requires ins.op in {INot, INeg, ILogNot}
    ensures StepIns(ctx, fr, ins) ==
              if fr.stack == [] then Trap(VmStackUnderflow)
              else
                var x := fr.Top();
                Go(fr.Drop(1).Push(if ins.op == INot then -1 - x
                                   else if ins.op == INeg then WSub(0, x) else Flag(x == 0)))
  {
    hide WSub;
  }

  method StepUnary(ctx: Ctx, slot: Slot, pc: nat, sp: nat, ins: Ins) returns (m: Micro)
    requires slot.Valid() && sp <= MAX_STACK && ins.op in {INot, INeg, ILogNot}
    ensures Refines(m, slot, pc, StepIns(ctx, slot.Live(pc, sp), ins))
  {
    hide StepIns, WSub, Slot.Arrays;
    UnaryTurn(ctx, slot.Live(pc, sp), ins);
    if sp == 0 { return MTrap(VmStackUnderflow); }
    var x := slot.stack[sp - 1];
    var v := if ins.op == INot then -1 - x else if ins.op == INeg then WSub(0, x) else Flag(x == 0);
    DropLive(slot, pc, sp, 1);
    PushLive(slot, pc, sp - 1, v);
    return MGo(slot.SetStack(sp - 1, v), pc, sp);
  }

  method StepJump(ctx: Ctx, slot: Slot, pc: nat, sp: nat, ins: Ins) returns (m: Micro)
    requires slot.Valid() && sp <= MAX_STACK && ins.op in {IJump, IJumpF, IJumpFKeep, IJumpTKeep}
    ensures Refines(m, slot, pc, StepIns(ctx, slot.Live(pc, sp), ins))
  {
    hide StepAbi, StepArray, Binary, Slot.Arrays;
    var target := ToU64(ins.a);
    if ins.op == IJump { return MGo(slot, target, sp); }
    if sp == 0 { return MTrap(VmStackUnderflow); }
    var x := slot.stack[sp - 1];
    if ins.op == IJumpF {
      DropLive(slot, pc, sp, 1);
      return MGo(slot, if x == 0 then target else pc, sp - 1);
    }
    if ins.op == IJumpFKeep { return MGo(slot, if x == 0 then target else pc, sp); }
    return MGo(slot, if x != 0 then target else pc, sp);
  }

  lemma CallLive(slot: Slot, pc: nat, sp: nat, n: nat)
    requires slot.Valid() && n <= sp <= MAX_STACK
    ensures slot.Live(pc, sp).Drop(n) == slot.Live(pc, sp - n)
    ensures slot.Live(pc, sp).stack[sp - n..] == slot.stack[sp - n..sp]
  {
    hide Slot.Arrays;
    DropLive(slot, pc, sp, n);
    assert slot.stack[..sp][sp - n..] == slot.stack[sp - n..sp];
  }

  lemma RetStep(ctx: Ctx, fr: Frame, ins: Ins)
    requires ins.op == IRet
    ensures StepIns(ctx, fr, ins) == if fr.stack == [] then Trap(VmStackUnderflow) else Halt(fr.Top(), |fr.stack|)
  {
  }

  lemma CallStep(ctx: Ctx, fr: Frame, ins: Ins)
    requires ins.op == ICall
    ensures StepIns(ctx, fr, ins) ==
              if ToU64(ins.a) >= |ctx.fns| then Trap(VmBadFn)
              else if |fr.stack| < ctx.fns[ToU64(ins.a)].nparams then Trap(VmStackUnderflow)
              else
                var n := ctx.fns[ToU64(ins.a)].nparams;
                Enter(fr.Drop(n), ToU64(ins.a), fr.stack[|fr.stack| - n..])
  {
  }

  method StepTransfer(ctx: Ctx, slot: Slot, pc: nat, sp: nat, ins: Ins) returns (m: Micro)
    requires slot.Valid() && sp <= MAX_STACK && ins.op in {IRet, ICall}
    ensures Refines(m, slot, pc, StepIns(ctx, slot.Live(pc, sp), ins))
  {
    hide StepIns, ToU64, Slot.Arrays;
    if ins.op == IRet {
      RetStep(ctx, slot.Live(pc, sp), ins);
      if sp == 0 { return MTrap(VmStackUnderflow); }
      return MHalt(slot.stack[sp - 1], sp);
    }
    CallStep(ctx, slot.Live(pc, sp), ins);
    var target := ToU64(ins.a);
    if target >= |ctx.fns| { return MTrap(VmBadFn); }
    var n := ctx.fns[target].nparams;
    if sp < n { return MTrap(VmStackUnderflow); }
    CallLive(slot, pc, sp, n);
    return MCall(target, sp - n, n);
  }

  method StepLoadIdx(ctx: Ctx, slot: Slot, pc: nat, sp: nat, ins: Ins) returns (m: Micro)
    requires slot.Valid() && sp <= MAX_STACK && ins.op == ILoadIdx
    ensures Refines(m, slot, pc, StepIns(ctx, slot.Live(pc, sp), ins))
  {
    hide StepAbi, Binary;
    var li := ToU64(ins.a);
    if sp == 0 { return MTrap(VmStackUnderflow); }
    if li >= MAX_LOCALS { return MFault; }
    var ix, arr := slot.stack[sp - 1], ToU64(slot.locals[li]);
    var v: i64 := 0;
    if arr < MAX_ARRS && 0 <= ix < slot.poolLen[arr] { v := slot.pool[arr][ix]; }
    DropLive(slot, pc, sp, 1);
    PushLive(slot, pc, sp - 1, v);
    return MGo(slot.SetStack(sp - 1, v), pc, sp);
  }

  method StepStoreIdx(ctx: Ctx, slot: Slot, pc: nat, sp: nat, ins: Ins) returns (m: Micro)
    requires slot.Valid() && sp <= MAX_STACK && ins.op == IStoreIdx
    ensures Refines(m, slot, pc, StepIns(ctx, slot.Live(pc, sp), ins))
  {
    hide StepAbi, Binary;
    var li := ToU64(ins.a);
    if sp < 2 { return MTrap(VmStackUnderflow); }
    if li >= MAX_LOCALS { return MFault; }
    var ix, val, arr := slot.stack[sp - 2], slot.stack[sp - 1], ToU64(slot.locals[li]);
    DropLive(slot, pc, sp, 2);
    if arr < MAX_ARRS && 0 <= ix < slot.poolLen[arr] {
      StoreLive(slot, arr, ix, val);
      return MGo(slot.SetCell(arr, ix, val), pc, sp - 2);
    }
    return MGo(slot, pc, sp - 2);
  }

  /** The length the C code reads, without asking the array itself. */
  function LengthOf(slot: Slot, arr: nat): (n: i64)
    requires slot.Valid()
    ensures n == ArrayLen(slot.Arrays(), arr)
  {
    if arr < MAX_ARRS then slot.poolLen[arr] else 0
  }

  method StepArrLen(ctx: Ctx, slot: Slot, pc: nat, sp: nat, ins: Ins) returns (m: Micro)
    requires slot.Valid() && sp <= MAX_STACK && ins.op == IArrLen
    ensures Refines(m, slot, pc, StepIns(ctx, slot.Live(pc, sp), ins))
  {
    hide StepAbi, Binary, ArrayLen;
    var li := ToU64(ins.a);
    if sp >= MAX_STACK { return MTrap(VmStackOverflow); }
    if li >= MAX_LOCALS { return MFault; }
    var n := LengthOf(slot, ToU64(slot.locals[li]));
    PushLive(slot, pc, sp, n);
    return MGo(slot.SetStack(sp, n), pc, sp + 1);
  }

  lemma StoreLive(slot: Slot, arr: nat, ix: i64, val: i64)
    requires slot.Valid() && arr < MAX_ARRS && 0 <= ix < slot.poolLen[arr]
    ensures var slot' := slot.SetCell(arr, ix, val);
            slot'.Valid() && slot'.Arrays() == ArrayStore(slot.Arrays(), arr, ix, val)
  {
    var slot' := slot.SetCell(arr, ix, val);
    var n := slot.poolLen[arr];
    assert slot.pool[arr][ix := val][..n] == slot.pool[arr][..n][ix := val];
    assert slot'.Arrays() == ArrayStore(slot.Arrays(), arr, ix, val);
  }

  lemma BinaryTurn(ctx: Ctx, fr: Frame, ins: Ins)
    requires ins.op in {IAdd, ISub, IMul, IDiv, IMod, IAnd, IOr, IXor, IShl, IShr, IUshr, IEq, INe, ILt, IGt, ILe, IGe}
    ensures StepIns(ctx, fr, ins) ==
              if |fr.stack| < 2 then Trap(VmStackUnderflow)
              else
                var r := Binary(ins.op, fr.stack[|fr.stack| - 2], fr.stack[|fr.stack| - 1]);
                if r.Err64? then Trap(r.err) else Go(fr.Drop(2).Push(r.v))
  {
    hide Binary;
  }

  method StepBinary(ctx: Ctx, slot: Slot, pc: nat, sp: nat, ins: Ins) returns (m: Micro)
    requires slot.Valid() && sp <= MAX_STACK
    requires ins.op in {IAdd, ISub, IMul, IDiv, IMod, IAnd, IOr, IXor, IShl, IShr, IUshr, IEq, INe, ILt, IGt, ILe, IGe}
    ensures Refines(m, slot, pc, StepIns(ctx, slot.Live(pc, sp), ins))
  {
    hide StepIns, Binary, Slot.Arrays;
    BinaryTurn(ctx, slot.Live(pc, sp), ins);
    if sp < 2 { return MTrap(VmStackUnderflow); }
    var r := Binary(ins.op, slot.stack[sp - 2], slot.stack[sp - 1]);
    if r.Err64? { return MTrap(r.err); }
    DropLive(slot, pc, sp, 2);
    PushLive(slot, pc, sp - 2, r.v);
    return MGo(slot.SetStack(sp - 2, r.v), pc, sp - 1);
  }

  method StepHost(ctx: Ctx, slot: Slot, pc: nat, sp: nat, ins: Ins) returns (m: Micro)
    requires slot.Valid() && sp <= MAX_STACK && ins.op == IAbi
    ensures Refines(m, slot, pc, StepIns(ctx, slot.Live(pc, sp), ins))
  {
    if ins.a < 0 || ins.a > 255 { return MTrap(VmBadFn); }
    if !AbiAllowed(ctx, ins.a) { return MTrap(VmBadFn); }
    DispatchPops(ctx.host.view, ins.a, slot.stack[..sp]);
    var (r, pops) := Dispatch(ctx.host.view, ins.a, slot.stack[..sp]);
    if r.vmError != LinOk { return MTrap(r.vmError); }
    if r.regionError != ROk && pops == 0 { return MTrap(VmBadFn); }
    assert sp - pops < MAX_STACK;  // the overflow test that follows a dispatch never fires
    DropLive(slot, pc, sp, pops);
    PushLive(slot, pc, sp - pops, r.value);
    return MGo(slot.SetStack(sp - pops, r.value), pc, sp - pops + 1);
  }

  method StepSlot(ctx: Ctx, slot: Slot, pc: nat, sp: nat, ins: Ins) returns (m: Micro)
    requires slot.Valid() && sp <= MAX_STACK
    ensures Refines(m, slot, pc, StepIns(ctx, slot.Live(pc, sp), ins))
  {
    hide StepIns;
    match ins.op {
      case IPush | ILoad => m := StepPush(ctx, slot, pc, sp, ins);
      case IStore | IPop => m := StepPop(ctx, slot, pc, sp, ins);
      case INot | INeg | ILogNot => m := StepUnary(ctx, slot, pc, sp, ins);
      case IJump | IJumpF | IJumpFKeep | IJumpTKeep => m := StepJump(ctx, slot, pc, sp, ins);
      case IRet | ICall => m := StepTransfer(ctx, slot, pc, sp, ins);
      case ILoadIdx => m := StepLoadIdx(ctx, slot, pc, sp, ins);
      case IStoreIdx => m := StepStoreIdx(ctx, slot, pc, sp, ins);
      case IArrLen => m := StepArrLen(ctx, slot, pc, sp, ins);
      case IAbi => m := StepHost(ctx, slot, pc, sp, ins);
      case _ => m := StepBinary(ctx, slot, pc, sp, ins);
    }
  }

  // ---------------------------------------------------------------- entering a function

  /** Zeroes the locals, forgets all arrays, and binds fresh arrays and the arguments. */
  method EnterSlot(f: Fn, args: seq<i64>, old_: Slot) returns (e: Entry, slot: Slot)
    requires old_.Valid()
    ensures slot.Valid()
    ensures match EnterFn(f, args)
            case Ready(fr) => e.Ready? && slot.Live(0, 0) == fr
            case EntryTrap(err) => e == EntryTrap(err)
            case EntryFault => e == EntryFault
  {
    slot := old_.(locals := Zeros(MAX_LOCALS), poolLen := seq(MAX_ARRS, _ => 0));
    NoArrays(slot);
    var li, used := 0, 0;
    ghost var whole := BindArrays(f.arrN, 0, Zeros(MAX_LOCALS), []);
    while li < |f.arrN|
      invariant 0 <= li <= |f.arrN| && used <= MAX_ARRS && slot.Valid()
      invariant whole == BindArrays(f.arrN, li, slot.locals, slot.Arrays()[..used])
      invariant forall i :: used <= i < MAX_ARRS ==> slot.poolLen[i] == 0
    {
      var n := f.arrN[li];
      if n != 0 {
        if used >= MAX_ARRS { return EntryTrap(VmBadFn), slot; }
        if n > MAX_ARR_LEN || li >= MAX_LOCALS { return EntryFault, slot; }
        BoundArray(slot, used, n, li);
        slot := Bind(slot, used, n, li);
        used := used + 1;
      }
      li := li + 1;
    }
    UnboundArrays(slot, used);
    assert whole == Ready(slot.Live(0, 0));
    e, slot := PassArgs(f, args, slot);
  }

  /** The slot with a zeroed array of length `n` at array slot `used`, bound to local `li`. */
  function Bind(slot: Slot, used: nat, n: nat, li: nat): (r: Slot)
    requires slot.Valid() && used < MAX_ARRS && n <= MAX_ARR_LEN && li < MAX_LOCALS
    ensures r.Valid()
  {
    var row: seq<i64> := Zeros(n) + slot.pool[used][n..];
    slot.(pool := slot.pool[used := row], poolLen := slot.poolLen[used := n], locals := slot.locals[li := used])
  }

  lemma BoundArray(slot: Slot, used: nat, n: nat, li: nat)
    requires slot.Valid() && used < MAX_ARRS && n <= MAX_ARR_LEN && li < MAX_LOCALS
    ensures Bind(slot, used, n, li).Arrays()[..used + 1] == slot.Arrays()[..used] + [Zeros(n)]
  {
    var r := Bind(slot, used, n, li);
    assert r.pool[used][..n] == Zeros(n);
    assert forall i :: 0 <= i < used ==> r.Arrays()[i] == slot.Arrays()[i];
    assert r.Arrays()[used] == Zeros(n);
  }

  lemma NoArrays(slot: Slot)
    requires slot.Valid() && slot.locals == Zeros(MAX_LOCALS)
    ensures slot.Arrays()[..0] == []
  {
  }

  lemma UnboundArrays(slot: Slot, used: nat)
    requires slot.Valid() && used <= MAX_ARRS
    requires forall i :: used <= i < MAX_ARRS ==> slot.poolLen[i] == 0
    ensures slot.Arrays()[..used] + seq(MAX_ARRS - used, _ => []) == slot.Arrays()
  {
  }

  method PassArgs(f: Fn, args: seq<i64>, bound: Slot) returns (e: Entry, slot: Slot)
    requires bound.Valid()
    ensures slot.Valid()
    ensures match BindArgs(f.arrN, args, 0, bound.Live(0, 0))
            case Ready(fr) => e.Ready? && slot.Live(0, 0) == fr
            case EntryTrap(err) => e == EntryTrap(err)
            case EntryFault => e == EntryFault
  {
    slot := bound;
    for i := 0 to |args|
      invariant slot.Valid()
      invariant BindArgs(f.arrN, args, 0, bound.Live(0, 0)) == BindArgs(f.arrN, args, i, slot.Live(0, 0))
    {
      if !(i < |f.arrN| && f.arrN[i] > 0) {
        if i >= MAX_LOCALS { return EntryFault, slot; }
        slot := slot.(locals := slot.locals[i := args[i]]);
      }
    }
    return Ready(slot.Live(0, 0)), slot;
  }

  // ---------------------------------------------------------------- executions

  /** One turn of the loop. */
  lemma LoopTurns(ctx: Ctx, code: seq<Ins>, fr: Frame, depth: nat, steps: nat)
    requires fr.pc < |code| && steps + 1 <= ctx.stepLimit
    ensures var r := Loop(ctx, code, fr, depth, steps);
            match StepIns(ctx, fr.At(fr.pc + 1), code[fr.pc])
            case Trap(e) => r == Failed(e, steps + 1)
            case Fault => r == Faulted
            case Halt(v, sp) => r == Done(v, sp, steps + 1)
            case Go(next) => r == Loop(ctx, code, next, depth, steps + 1)
            case Enter(rest, callee, args) =>
              match Exec(ctx, callee, args, depth + 1, steps + 1)
              case Faulted => r == Faulted
              case Failed(e, s) => r == Failed(e, s)
              case Done(v, _, s) =>
                r == if |rest.stack| >= MAX_STACK then Faulted else Loop(ctx, code, rest.Push(v), depth, s)
  {
    hide StepIns, Exec;
  }

  lemma LoopEnds(ctx: Ctx, code: seq<Ins>, fr: Frame, depth: nat, steps: nat)
    ensures fr.pc >= |code| ==> Loop(ctx, code, fr, depth, steps) == Done(0, |fr.stack|, steps)
    ensures fr.pc < |code| && steps + 1 > ctx.stepLimit ==>
              Loop(ctx, code, fr, depth, steps) == Failed(VmStepLimit, steps + 1)
  {
    hide StepIns, Exec;
  }

  class FrameStore {
    var frames: seq<Slot>

    ghost predicate Valid()
      reads this
    {
      |frames| == MAX_CALL_DEPTH + 1 && forall d :: 0 <= d < |frames| ==> frames[d].Valid()
    }

    /** Runs a function at a call depth.  The result is that of the specification, whatever
        earlier calls left behind in the frames, and the frames of all callers are untouched. */
    method Execute(ctx: Ctx, fi: nat, args: seq<i64>, depth: nat, steps: nat) returns (r: Run)
      requires Valid()
      modifies this
      ensures Valid() && r == Exec(ctx, fi, args, depth, steps)
      ensures forall d :: 0 <= d < depth && d < |frames| ==> frames[d] == old(frames[d])
      decreases Left(ctx, steps), 1
    {
      if depth > MAX_CALL_DEPTH { return Failed(VmDepth, steps); }
      if fi >= |ctx.fns| || !ctx.fns[fi].ok { return Failed(VmBadFn, steps); }
      var f := ctx.fns[fi];
      if |args| != f.nparams { return Failed(VmArity, steps); }
      var e, slot := EnterSlot(f, args, frames[depth]);
      frames := frames[depth := slot];
      match e {
        case EntryTrap(err) => return Failed(err, steps);
        case EntryFault => return Faulted;
        case Ready(_) => r := RunCode(ctx, f.code, depth, steps);
      }
    }

    /** The interpreter loop on the frame of one depth. */
    method RunCode(ctx: Ctx, code: seq<Ins>, depth: nat, start: nat) returns (r: Run)
      requires Valid() && depth <= MAX_CALL_DEPTH
      modifies this
      ensures Valid() && r == Loop(ctx, code, old(frames[depth]).Live(0, 0), depth, start)
      ensures forall d :: 0 <= d < depth ==> frames[d] == old(frames[d])
      decreases Left(ctx, start), 0
    {
      hide StepIns, Exec, Loop, Slot.Arrays;
      ghost var whole := Loop(ctx, code, frames[depth].Live(0, 0), depth, start);
      var pc, sp, steps := 0, 0, start;
      while pc < |code|
        invariant Valid() && sp <= MAX_STACK && start <= steps
        invariant forall d :: 0 <= d < depth ==> frames[d] == old(frames[d])
        invariant whole == Loop(ctx, code, frames[depth].Live(pc, sp), depth, steps)
        decreases Left(ctx, steps)
      {
        steps := steps + 1;
        if steps > ctx.stepLimit {
          LoopEnds(ctx, code, frames[depth].Live(pc, sp), depth, steps - 1);
          return Failed(VmStepLimit, steps);
        }
        var ins := code[pc];
        LoopTurns(ctx, code, frames[depth].Live(pc, sp), depth, steps - 1);
        var m := StepSlot(ctx, frames[depth], pc + 1, sp, ins);
        match m {
          case MTrap(e) => return Failed(e, steps);
          case MFault => return Faulted;
          case MHalt(v, s) => return Done(v, s, steps);
          case MGo(slot, pc', sp') =>
            frames := frames[depth := slot];
            pc, sp := pc', sp';
          case MCall(callee, base, n) =>
            var call := Execute(ctx, callee, frames[depth].stack[base..base + n], depth + 1, steps);
            match call {
              case Faulted => return Faulted;
              case Failed(e, s) => return Failed(e, s);
              case Done(v, _, s) =>
                // The C code writes the result without testing for room.
                if base >= MAX_STACK { return Faulted; }
                PushLive(frames[depth], pc + 1, base, v);
                frames := frames[depth := frames[depth].SetStack(base, v)];
                pc, sp, steps := pc + 1, base + 1, s;
            }
        }
      }
      LoopEnds(ctx, code, frames[depth].Live(pc, sp), depth, steps);
      return Done(0, sp, steps);
    }
  }
}
