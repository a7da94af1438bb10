/** What entering a function leaves in its frame. */
module VmEntry {
  import opened Int64
  import opened Syntax
  import opened Vm

  /** How many of the first `i` locals are arrays. */
  function ArraysBefore(arrN: seq<nat>, i: nat): (n: nat)
    requires i <= |arrN|
    ensures n <= i
  {
    if i == 0 then 0 else ArraysBefore(arrN, i - 1) + if arrN[i - 1] > 0 then 1 else 0
  }

  predicate IsArray(arrN: seq<nat>, i: nat)
  {
    i < |arrN| && arrN[i] > 0
  }

  ghost predicate ZeroArray(row: seq<i64>, n: nat)
  {
    |row| == n && forall k :: 0 <= k < n ==> row[k] == 0
  }

  /** A fresh frame: an array local holds the number of its array, which counts up from zero and has
      the length of the local and zeros in it; another local holds its argument, or zero. */
  ghost predicate Entered(f: Fn, args: seq<i64>, fr: Frame)
  {
    && fr.pc == 0 && fr.stack == [] && |fr.locals| == 64 && |fr.pool| == 8
    && (forall i :: 0 <= i < 64 ==>
          if IsArray(f.arrN, i)
          then fr.locals[i] == ArraysBefore(f.arrN, i) < 8 && ZeroArray(fr.pool[ArraysBefore(f.arrN, i)], f.arrN[i])
          else fr.locals[i] == if i < |args| then args[i] else 0)
    && (forall s :: ArraysBefore(f.arrN, |f.arrN|) <= s < 8 ==> fr.pool[s] == [])
  }

  /** Local `j`, when the first `i` locals are bound. */
  ghost predicate LocalBound(arrN: seq<nat>, i: nat, locals: seq<i64>, pool: seq<seq<i64>>, j: nat)
    requires i <= |arrN| && j < |locals|
  {
    if j < i && arrN[j] > 0
    then locals[j] == ArraysBefore(arrN, j) < |pool| && ZeroArray(pool[ArraysBefore(arrN, j)], arrN[j])
    else locals[j] == 0
  }

  ghost predicate BoundUpTo(arrN: seq<nat>, i: nat, locals: seq<i64>, pool: seq<seq<i64>>)
    requires i <= |arrN|
  {
    && |locals| == 64 && |pool| == ArraysBefore(arrN, i) <= 8
    && forall j: nat :: j < 64 ==> LocalBound(arrN, i, locals, pool, j)
  }

  lemma {:induction false} ArraysGrow(arrN: seq<nat>, i: nat, j: nat)
    requires i <= j <= |arrN|
    ensures ArraysBefore(arrN, i) <= ArraysBefore(arrN, j)
    ensures i < j && arrN[i] > 0 ==> ArraysBefore(arrN, i) < ArraysBefore(arrN, j)
    decreases j
  {
    if i + 1 < j { ArraysGrow(arrN, i, j - 1); }
  }

  lemma BindOne(arrN: seq<nat>, i: nat, locals: seq<i64>, pool: seq<seq<i64>>, l: seq<i64>, p: seq<seq<i64>>)
    requires i < |arrN| <= 64 && BoundUpTo(arrN, i, locals, pool)
    requires if arrN[i] == 0 then l == locals && p == pool
             else |pool| < 8 && l == locals[i := |pool|] && p == pool + [Zeros(arrN[i])]
    ensures BoundUpTo(arrN, i + 1, l, p)
  {
    hide ZeroArray, Zeros, LocalBound;
    assert ArraysBefore(arrN, i + 1) == ArraysBefore(arrN, i) + if arrN[i] > 0 then 1 else 0;
    var next := i + 1;
    forall j: nat | j < 64 ensures LocalBound(arrN, next, l, p, j) {
      BindLocal(arrN, i, locals, pool, l, p, j);
    }
  }

  lemma BindLocal(arrN: seq<nat>, i: nat, locals: seq<i64>, pool: seq<seq<i64>>, l: seq<i64>, p: seq<seq<i64>>, j: nat)
    requires i < |arrN| <= 64 && |locals| == 64 && j < 64 && |pool| == ArraysBefore(arrN, i)
    requires if arrN[i] == 0 then l == locals && p == pool
             else |pool| < 8 && l == locals[i := |pool|] && p == pool + [Zeros(arrN[i])]
    requires LocalBound(arrN, i, locals, pool, j)
    ensures LocalBound(arrN, i + 1, l, p, j)
  {
    hide ZeroArray, Zeros;
    ZerosZero(arrN[i]);
  }

  lemma ZerosZero(n: nat)
    ensures ZeroArray(Zeros(n), n)
  {
  }

  lemma {:induction false} BindLaw(arrN: seq<nat>, i: nat, locals: seq<i64>, pool: seq<seq<i64>>)
    requires i <= |arrN| <= 64 && BoundUpTo(arrN, i, locals, pool) && forall j :: 0 <= j < |arrN| ==> arrN[j] <= 256
    ensures var e, n := BindArrays(arrN, i, locals, pool), ArraysBefore(arrN, |arrN|);
            if n > 8 then e == EntryTrap(VmBadFn)
            else
              && e.Ready? && e.frame.pc == 0 && e.frame.stack == [] && |e.frame.pool| == 8
              && BoundUpTo(arrN, |arrN|, e.frame.locals, e.frame.pool[..n])
              && forall s :: n <= s < 8 ==> e.frame.pool[s] == []
    decreases |arrN| - i
  {
    hide BoundUpTo, Zeros;
    BoundSizes(arrN, i, locals, pool);
    if i == |arrN| {
      var e := BindArrays(arrN, i, locals, pool);
      assert e.frame.pool[..|pool|] == pool;
    } else {
      ArraysGrow(arrN, i, |arrN|);
      if arrN[i] == 0 {
        BindOne(arrN, i, locals, pool, locals, pool);
        BindLaw(arrN, i + 1, locals, pool);
      } else if |pool| < 8 {
        var l: seq<i64> := locals[i := |pool|];
        BindOne(arrN, i, locals, pool, l, pool + [Zeros(arrN[i])]);
        BindLaw(arrN, i + 1, l, pool + [Zeros(arrN[i])]);
      }
    }
  }

  lemma BoundSizes(arrN: seq<nat>, i: nat, locals: seq<i64>, pool: seq<seq<i64>>)
    requires i <= |arrN| && BoundUpTo(arrN, i, locals, pool)
    ensures |locals| == 64 && |pool| == ArraysBefore(arrN, i) <= 8
  {
  }

  lemma {:induction false} ArgsLaw(arrN: seq<nat>, args: seq<i64>, i: nat, fr: Frame)
    requires i <= |args| <= |fr.locals| == 64
    ensures var e := BindArgs(arrN, args, i, fr);
            && e.Ready? && e.frame.pc == fr.pc && e.frame.stack == fr.stack && e.frame.pool == fr.pool
            && |e.frame.locals| == 64
            && forall j {:trigger e.frame.locals[j]} :: 0 <= j < 64 ==>
                 e.frame.locals[j] == if i <= j < |args| && !IsArray(arrN, j) then args[j] else fr.locals[j]
    decreases |args| - i
  {
    if i < |args| {
      if IsArray(arrN, i) {
        ArgsLaw(arrN, args, i + 1, fr);
      } else {
        ArgsLaw(arrN, args, i + 1, fr.(locals := fr.locals[i := args[i]]));
      }
    }
  }

  /** Entering a function: it fails exactly if more than eight of its locals are arrays. */
  lemma EntryLaw(f: Fn, args: seq<i64>)
    requires |f.arrN| <= 64 && |args| <= 64 && forall j :: 0 <= j < |f.arrN| ==> f.arrN[j] <= 256
    ensures var e := EnterFn(f, args);
            if ArraysBefore(f.arrN, |f.arrN|) > 8 then e == EntryTrap(VmBadFn)
            else e.Ready? && Entered(f, args, e.frame)
  {
    hide BindArrays, BindArgs, ZeroArray;
    var n := ArraysBefore(f.arrN, |f.arrN|);
    BindLaw(f.arrN, 0, Zeros(64), []);
    var e := BindArrays(f.arrN, 0, Zeros(64), []);
    if n <= 8 {
      ArgsLaw(f.arrN, args, 0, e.frame);
      var fr := EnterFn(f, args).frame;
      forall i | 0 <= i < 64
        ensures if IsArray(f.arrN, i)
                then fr.locals[i] == ArraysBefore(f.arrN, i) < 8
                     && ZeroArray(fr.pool[ArraysBefore(f.arrN, i)], f.arrN[i])
                else fr.locals[i] == if i < |args| then args[i] else 0
      {
        assert LocalBound(f.arrN, |f.arrN|, e.frame.locals, e.frame.pool[..n], i);
        assert fr.locals[i] == if i < |args| && !IsArray(f.arrN, i) then args[i] else e.frame.locals[i];
      }
    }
  }
}
