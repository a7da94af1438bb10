/** The dispatcher of the region intrinsics: which calls are allowed, what they take off the
    operand stack, and what they answer. */
module Abi {
  import opened Int64
  import opened Syntax
  import opened Region

  const HOST_ABI_2: nat := 2
  const MAX_DECLARED: nat := 12
  const REGION_CAPACITY: nat := 9
  const REGION_CHECK_RANGE: nat := 10
  const REGION_LOAD_BYTE: nat := 11

  datatype AbiView = AbiView(regions: RegionSet, version: nat, declared: set<nat>)

  datatype AbiResult = AbiResult(vmError: LinErr, regionError: RegionErr, value: i64)

  /** The declared parameter count of an intrinsic, or -1 for an unknown id. */
  function Params(id: nat): int
  {
    if id == REGION_CAPACITY then 1
    else if id == REGION_CHECK_RANGE then 3
    else if id == REGION_LOAD_BYTE then 2
    else -1
  }

  predicate IsEnabled(ctx: AbiView, id: nat)
  {
    id < MAX_DECLARED && ctx.version == HOST_ABI_2 && id in ctx.declared
  }

  function Answer(value: i64): AbiResult { AbiResult(LinOk, ROk, value) }
  function VmTrouble(e: LinErr): AbiResult { AbiResult(e, ROk, 0) }
  function RegionTrouble(e: RegionErr): AbiResult { AbiResult(LinOk, e, 0) }

  /** The answer of a dispatch and how many operands it consumes. */
  function Dispatch(ctx: AbiView, id: nat, stack: seq<i64>): (r: (AbiResult, nat))
  {
    var sp := |stack|;
    if ctx.version != HOST_ABI_2 then (RegionTrouble(RAbi), 0)
    else if Params(id) < 0 then (RegionTrouble(RAbi), 0)
    else if !IsEnabled(ctx, id) then (RegionTrouble(RAbi), 0)
    else if sp < Params(id) then (VmTrouble(VmStackUnderflow), 0)
    else if id == REGION_CAPACITY then
      var (e, i) := Get(ctx.regions, stack[sp - 1]);
      if e != ROk then (RegionTrouble(e), 0)
      else (Answer(CapacityBytes(ctx.regions[i])), 1)
    else if id == REGION_CHECK_RANGE then
      var offset, len := stack[sp - 2], stack[sp - 1];
      if offset < 0 || len < 0 then (RegionTrouble(RInvalid), 0)
      else
        var (e, i) := Get(ctx.regions, stack[sp - 3]);
        if e != ROk then (RegionTrouble(e), 0)
        else
          var status := CheckRange(ctx.regions[i], offset, len);
          (AbiResult(LinOk, status, status.Code()), 3)
    else
      var at := stack[sp - 1];
      if at < 0 then (RegionTrouble(RInvalid), 0)
      else
        var (e, i) := Get(ctx.regions, stack[sp - 2]);
        if e != ROk then (RegionTrouble(e), 0)
        else
          var (e', b) := LoadByte(ctx.regions[i], at);
          if e' != ROk then (RegionTrouble(e'), 0) else (Answer(b), 2)
  }

  /** Either nothing is consumed and some error is reported, or exactly the declared number of
      parameters is consumed; and then everything below them is out of reach. */
  lemma DispatchPops(ctx: AbiView, id: nat, stack: seq<i64>)
    ensures var (r, pops) := Dispatch(ctx, id, stack);
            if pops == 0 then r.vmError != LinOk || r.regionError != ROk
            else pops == Params(id) && pops <= |stack| && r.vmError == LinOk
                 && Dispatch(ctx, id, stack[|stack| - pops..]) == (r, pops)
  {
    var (r, pops) := Dispatch(ctx, id, stack);
    if pops > 0 {
      var top := stack[|stack| - pops..];
      assert top[|top| - 1] == stack[|stack| - 1];
      assert pops >= 2 ==> top[|top| - 2] == stack[|stack| - 2];
      assert pops >= 3 ==> top[|top| - 3] == stack[|stack| - 3];
    }
  }

  /** The id is that of a region that is there, with at most 2048 cells and a payload that fits
      into them and into 16 KiB. */
  predicate IsBound(regions: RegionSet, id: i64)
  {
    && 0 <= id < |regions| && regions[id].id == id
    && |regions[id].cells| <= 2048 && regions[id].payloadLen <= 8 * |regions[id].cells|
    && regions[id].payloadLen <= 16384
  }

  predicate Refused(r: AbiResult)
  {
    r.vmError == LinOk && r.regionError != ROk
  }

  /** The capacity is asked of exactly the bound regions, and is eight bytes for every cell. */
  lemma DispatchCapacity(ctx: AbiView, stack: seq<i64>, id: i64)
    requires IsEnabled(ctx, REGION_CAPACITY)
    ensures var (r, pops) := Dispatch(ctx, REGION_CAPACITY, stack + [id]);
            if IsBound(ctx.regions, id) then pops == 1 && r == Answer(8 * |ctx.regions[id].cells|)
            else pops == 0 && Refused(r)
  {
    var s := stack + [id];
    assert s[|s| - 1] == id;
  }

  /** A byte load answers exactly for the bytes of the payload of a bound region. */
  lemma DispatchLoads(ctx: AbiView, stack: seq<i64>, id: i64, at: i64)
    requires IsEnabled(ctx, REGION_LOAD_BYTE)
    ensures var (r, pops) := Dispatch(ctx, REGION_LOAD_BYTE, stack + [id, at]);
            if IsBound(ctx.regions, id) && 0 <= at < ctx.regions[id].payloadLen
            then pops == 2 && r == Answer(Payload(ctx.regions[id])[at])
            else pops == 0 && Refused(r)
  {
    var s := stack + [id, at];
    assert s[|s| - 1] == at && s[|s| - 2] == id;
    if IsBound(ctx.regions, id) && at >= 0 { LoadByteReadsPayload(ctx.regions[id], at); }
  }

  /** A range check of a bound region answers 0 for the ranges inside the payload and 3, truncated,
      for the others; without a region or with a negative number there is no answer. */
  lemma DispatchChecks(ctx: AbiView, stack: seq<i64>, id: i64, offset: i64, len: i64)
    requires IsEnabled(ctx, REGION_CHECK_RANGE)
    ensures var (r, pops) := Dispatch(ctx, REGION_CHECK_RANGE, stack + [id, offset, len]);
            if IsBound(ctx.regions, id) && offset >= 0 && len >= 0
            then pops == 3 && r.vmError == LinOk
                 && r.value == if offset + len <= ctx.regions[id].payloadLen then 0 else 3
            else pops == 0 && Refused(r)
  {
    var s := stack + [id, offset, len];
    assert s[|s| - 1] == len && s[|s| - 2] == offset && s[|s| - 3] == id;
    if IsBound(ctx.regions, id) && offset >= 0 && len >= 0 { CheckRangeExact(ctx.regions[id], offset, len); }
  }

  // ---------------------------------------------------------------- the running context

  class AbiContext {
    const regions: RegionSet
    const version: nat
    var declared: seq<bool>

    ghost predicate Valid()
      reads this
    {
      |declared| == MAX_DECLARED
    }

    function View(): AbiView
      requires |declared| == MAX_DECLARED
      reads this
    {
      AbiView(regions, version, set i: nat | i < MAX_DECLARED && declared[i])
    }

    constructor (regions: RegionSet)
      ensures Valid() && View() == AbiView(regions, HOST_ABI_2, {})
    {
      this.regions, this.version := regions, HOST_ABI_2;
      declared := seq(MAX_DECLARED, _ => false);
    }

    method Enable(id: nat) returns (err: RegionErr)
      requires Valid()
      modifies this
      ensures Valid()
      ensures err == if version != HOST_ABI_2 || Params(id) < 0 then RAbi else ROk
      ensures View() == if err == ROk then old(View()).(declared := old(View()).declared + {id}) else old(View())
    {
      if version != HOST_ABI_2 { return RAbi; }
      if Params(id) < 0 { return RAbi; }
      declared := declared[id := true];
      return ROk;
    }

    /** The dispatcher on a stack array; the stack itself is never written. */
    method DispatchTop(id: nat, stack: array<i64>, sp: nat) returns (result: AbiResult, newSp: nat)
      requires Valid() && sp <= stack.Length
      ensures var (r, pops) := Dispatch(View(), id, stack[..sp]);
              result == r && pops <= sp && newSp == sp - pops
    {
      newSp := sp;
      if version != HOST_ABI_2 { return RegionTrouble(RAbi), sp; }
      if Params(id) < 0 { return RegionTrouble(RAbi), sp; }
      if id >= MAX_DECLARED || !declared[id] { return RegionTrouble(RAbi), sp; }
      if id == REGION_CAPACITY {
        if sp < 1 { return VmTrouble(VmStackUnderflow), sp; }
        var (e, i) := Get(regions, stack[sp - 1]);
        if e != ROk { return RegionTrouble(e), sp; }
        return Answer(CapacityBytes(regions[i])), sp - 1;
      } else if id == REGION_CHECK_RANGE {
        if sp < 3 { return VmTrouble(VmStackUnderflow), sp; }
        var offset, len := stack[sp - 2], stack[sp - 1];
        if offset < 0 || len < 0 { return RegionTrouble(RInvalid), sp; }
        var (e, i) := Get(regions, stack[sp - 3]);
        if e != ROk { return RegionTrouble(e), sp; }
        var status := CheckRange(regions[i], offset, len);
        return AbiResult(LinOk, status, status.Code()), sp - 3;
      } else {
        if sp < 2 { return VmTrouble(VmStackUnderflow), sp; }
        var at := stack[sp - 1];
        if at < 0 { return RegionTrouble(RInvalid), sp; }
        var (e, i) := Get(regions, stack[sp - 2]);
        if e != ROk { return RegionTrouble(e), sp; }
        var (e', b) := LoadByte(regions[i], at);
        if e' != ROk { return RegionTrouble(e'), sp; }
        return Answer(b), sp - 2;
      }
    }
  }
}
