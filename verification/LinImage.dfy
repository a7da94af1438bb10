/** LINBC1 images: what a well-formed image is, its bytes, and the reader that must accept
    exactly those bytes. */
module LinImage {
  import opened Bytes
  import opened Seqs
  import opened Int64
  import opened Vm
  import opened ImageFormat

  const MAX_FNS: nat := 64
  const MAX_STRINGS: nat := 256
  const MAX_INS_TOTAL: nat := 16384
  const MAX_STR_BYTES: nat := 4096
  const MAX_REGIONS: nat := 64
  const MAX_CELLS: nat := 0x10_0000
  const MAX_ABIS: nat := 9
  const MAX_FN_ARRS: nat := 8

  const MAGIC: bytes := [0x4C, 0x49, 0x4E, 0x42, 0x43, 0x31]
  /** "linbc1:img:" */
  const DOMAIN: bytes := [0x6C, 0x69, 0x6E, 0x62, 0x63, 0x31, 0x3A, 0x69, 0x6D, 0x67, 0x3A]

  datatype ArrDecl = ArrDecl(local: nat, len: nat)
  datatype FnDecl = FnDecl(name: nat, nparams: nat, nlocals: nat, arrs: seq<ArrDecl>, code: seq<Ins>)
  datatype Image = Image(profile: nat, strings: seq<bytes>, cells: seq<nat>, abis: seq<nat>, fns: seq<FnDecl>)

  // ---------------------------------------------------------------- well-formed images

  function Total(xs: seq<nat>): nat
  {
    if xs == [] then 0 else xs[0] + Total(xs[1..])
  }

  function Lengths<T>(xs: seq<seq<T>>): (r: seq<nat>)
    ensures |r| == |xs|
  {
    seq(|xs|, i requires 0 <= i < |xs| => |xs[i]|)
  }

  function CodeLengths(fns: seq<FnDecl>): (r: seq<nat>)
    ensures |r| == |fns|
  {
    seq(|fns|, i requires 0 <= i < |fns| => |fns[i].code|)
  }

  /** Jumps stay in the function, calls in the module, local operands in the locals. */
  predicate InsFits(ins: Ins, codeLen: nat, nFns: nat, nlocals: nat)
  {
    match ins.op
    case IAbi => false
    case IJump | IJumpF | IJumpFKeep | IJumpTKeep => 0 <= ins.a < codeLen
    case ICall => 0 <= ins.a < nFns
    case ILoad | IStore | ILoadIdx | IStoreIdx | IArrLen => 0 <= ins.a < nlocals
    case _ => true
  }

  predicate ArrsFit(arrs: seq<ArrDecl>, nlocals: nat)
  {
    && (forall i :: 0 <= i < |arrs| ==> arrs[i].local < nlocals && 1 <= arrs[i].len <= MAX_ARR_LEN)
    && (forall i, j :: 0 <= i < j < |arrs| ==> arrs[i].local != arrs[j].local)
  }

  predicate FnFits(f: FnDecl, nStrings: nat, nFns: nat)
  {
    && f.name < nStrings && f.code != []
    && f.nparams <= f.nlocals <= MAX_LOCALS
    && |f.arrs| <= MAX_FN_ARRS && ArrsFit(f.arrs, f.nlocals)
    && forall i :: 0 <= i < |f.code| ==> InsFits(f.code[i], |f.code|, nFns, f.nlocals)
  }

  predicate ValidImage(im: Image)
  {
    && 1 <= im.profile <= 2
    && |im.strings| <= MAX_STRINGS && Total(Lengths(im.strings)) <= MAX_STR_BYTES
    && |im.cells| <= MAX_REGIONS && Total(im.cells) <= MAX_CELLS
    && (im.profile == 1 ==> im.cells == [])
    && |im.abis| <= MAX_ABIS && (forall i :: 0 <= i < |im.abis| ==> im.abis[i] <= 8)
    && |im.fns| <= MAX_FNS && Total(CodeLengths(im.fns)) <= MAX_INS_TOTAL
    && forall i :: 0 <= i < |im.fns| ==> FnFits(im.fns[i], |im.strings|, |im.fns|)
  }

  // ---------------------------------------------------------------- strings

  function ReadString(used: nat, b: bytes): Res<bytes>
  {
    var (n, r) :- Field(b, 4, LdSection);
    if |r| < n then Bad(LdShort)
    else if used + n > MAX_STR_BYTES then Bad(LdCount)
    else Got(r[..n], r[n..])
  }

  /** The state is the number of bytes used by earlier strings. */
  function Strings(): Format<nat, bytes>
  {
    Format<nat, bytes>.Format((used: nat, b: bytes) => ReadString(used, b),
           (used: nat, s: bytes) => used + |s|,
           (used: nat, s: bytes) => used + |s| <= MAX_STR_BYTES,
           (used: nat, s: bytes) => LE(|s|, 4) + s)
  }

  lemma StringsExact()
    ensures Exact(Strings())
  {
    forall used: nat, b: bytes, s: bytes, rest: bytes ensures ReadsBack(Strings(), used, b, s, rest) {
      StringExact(used, b, s, rest);
    }
  }

  lemma StringExact(used: nat, b: bytes, s: bytes, rest: bytes)
    ensures ReadString(used, b) == Got(s, rest) <==> used + |s| <= MAX_STR_BYTES && b == LE(|s|, 4) + s + rest
  {
    SmallPowers();
    Regroup(LE(|s|, 4), s, rest);
    FieldExact(b, 4, LdSection, |s|, s + rest);
    ConcatParts(s, rest);
    var f := Field(b, 4, LdSection);
    if ReadString(used, b) == Got(s, rest) {
      TakeDrop(f.rest, f.v);
      assert f == Got(|s|, s + rest);
    }
  }

  lemma {:induction false} StringsFit(used: nat, ss: seq<bytes>)
    requires used <= MAX_STR_BYTES
    ensures ListFits(Strings(), used, ss) <==> used + Total(Lengths(ss)) <= MAX_STR_BYTES
    decreases |ss|
  {
    if ss != [] {
      assert Lengths(ss)[1..] == Lengths(ss[1..]);
      if used + |ss[0]| <= MAX_STR_BYTES {
        StringsFit(used + |ss[0]|, ss[1..]);
      }
    }
  }

  // ---------------------------------------------------------------- regions and ABI ids

  datatype RegionCount = RegionCount(next: nat, used: nat)

  function ReadRegion(s: RegionCount, b: bytes): Res<nat>
  {
    var (id, r1) :- Field(b, 4, LdSection);
    var (cells, r2) :- Field(r1, 4, LdSection);
    if id != s.next then Bad(LdRegion)
    else if s.used + cells > MAX_CELLS then Bad(LdRegion)
    else Got(cells, r2)
  }

  /** The state is the next region number and the number of cells so far. */
  function Regions(): Format<RegionCount, nat>
  {
    Format((s: RegionCount, b: bytes) => ReadRegion(s, b),
           (s: RegionCount, cells: nat) => RegionCount(s.next + 1, s.used + cells),
           (s: RegionCount, cells: nat) => s.next < 0x1_0000_0000 && s.used + cells <= MAX_CELLS,
           (s: RegionCount, cells: nat) => LE(s.next, 4) + LE(cells, 4))
  }

  lemma RegionsExact()
    ensures Exact(Regions())
  {
    forall s: RegionCount, b: bytes, cells: nat, rest: bytes ensures ReadsBack(Regions(), s, b, cells, rest) {
      SmallPowers();
      Regroup(LE(s.next, 4), LE(cells, 4), rest);
      FieldExact(b, 4, LdSection, s.next, LE(cells, 4) + rest);
      FieldExact(LE(cells, 4) + rest, 4, LdSection, cells, rest);
      if ReadRegion(s, b) == Got(cells, rest) {
        var r1 := Field(b, 4, LdSection).rest;
        FieldExact(r1, 4, LdSection, cells, rest);
        FieldExact(b, 4, LdSection, s.next, r1);
      }
    }
  }

  lemma {:induction false} RegionsFit(i: nat, used: nat, cells: seq<nat>)
    requires used <= MAX_CELLS && i + |cells| <= MAX_REGIONS
    ensures ListFits(Regions(), RegionCount(i, used), cells) <==> used + Total(cells) <= MAX_CELLS
    decreases |cells|
  {
    if cells != [] && used + cells[0] <= MAX_CELLS {
      RegionsFit(i + 1, used + cells[0], cells[1..]);
    }
  }

  function ReadAbi(b: bytes): Res<nat>
  {
    var (id, r) :- Field(b, 1, LdSection);
    if id > 8 then Bad(LdAbi) else Got(id, r)
  }

  function Abis(): Format<nat, nat>
  {
    Format((s: nat, b: bytes) => ReadAbi(b), (s: nat, id: nat) => s,
           (s: nat, id: nat) => id <= 8, (s: nat, id: nat) => LE(id, 1))
  }

  lemma AbisExact()
    ensures Exact(Abis())
  {
    forall s: nat, b: bytes, id: nat, rest: bytes ensures ReadsBack(Abis(), s, b, id, rest) {
      FieldExact(b, 1, LdSection, id, rest);
      assert Pow256(1) == 256 * Pow256(0);
    }
  }

  lemma {:induction false} AbisFit(s: nat, ids: seq<nat>)
    ensures ListFits(Abis(), s, ids) <==> forall i :: 0 <= i < |ids| ==> ids[i] <= 8
    decreases |ids|
  {
    if ids != [] {
      AbisFit(s, ids[1..]);
      assert (forall i :: 0 <= i < |ids| ==> ids[i] <= 8)
        <==> ids[0] <= 8 && forall i :: 0 <= i < |ids[1..]| ==> ids[1..][i] <= 8 by {
        assert forall i :: 0 < i < |ids| ==> ids[i] == ids[1..][i - 1];
      }
    }
  }

  // ---------------------------------------------------------------- arrays of a function

  type Dense = d: seq<nat> | |d| == MAX_LOCALS witness seq(MAX_LOCALS, _ => 0)

  function NoArrays(): Dense { seq(MAX_LOCALS, _ => 0) }

  function SetDense(dense: Dense, a: ArrDecl): Dense
  {
    if a.local < MAX_LOCALS then dense[a.local := a.len] else dense
  }

  function ReadArr(nlocals: nat, dense: Dense, b: bytes): Res<ArrDecl>
    requires nlocals <= MAX_LOCALS
  {
    var (li, r1) :- Field(b, 1, LdSection);
    var (alen, r2) :- Field(r1, 2, LdSection);
    if li >= nlocals then Bad(LdLocal)
    else if alen == 0 || alen > MAX_ARR_LEN then Bad(LdFn)
    else if dense[li] != 0 then Bad(LdFn)
    else Got(ArrDecl(li, alen), r2)
  }

  predicate ArrFits(nlocals: nat, dense: Dense, a: ArrDecl)
    requires nlocals <= MAX_LOCALS
  {
    a.local < nlocals && 1 <= a.len <= MAX_ARR_LEN && dense[a.local] == 0
  }

  /** The state is the table of array lengths by local, as far as it is filled. */
  function Arrs(nlocals: nat): Format<Dense, ArrDecl>
    requires nlocals <= MAX_LOCALS
  {
    Format((dense: Dense, b: bytes) => ReadArr(nlocals, dense, b),
           (dense: Dense, a: ArrDecl) => SetDense(dense, a),
           (dense: Dense, a: ArrDecl) => ArrFits(nlocals, dense, a),
           (dense: Dense, a: ArrDecl) => LE(a.local, 1) + LE(a.len, 2))
  }

  lemma ArrsExact(nlocals: nat)
    requires nlocals <= MAX_LOCALS
    ensures Exact(Arrs(nlocals))
  {
    forall dense: Dense, b: bytes, a: ArrDecl, rest: bytes ensures ReadsBack(Arrs(nlocals), dense, b, a, rest) {
      SmallPowers();
      assert Pow256(1) == 256 * Pow256(0);
      Regroup(LE(a.local, 1), LE(a.len, 2), rest);
      FieldExact(b, 1, LdSection, a.local, LE(a.len, 2) + rest);
      FieldExact(LE(a.len, 2) + rest, 2, LdSection, a.len, rest);
      if ReadArr(nlocals, dense, b) == Got(a, rest) {
        var r1 := Field(b, 1, LdSection).rest;
        FieldExact(r1, 2, LdSection, a.len, rest);
        FieldExact(b, 1, LdSection, a.local, r1);
      }
    }
  }

  /** The table after all declarations of `arrs`. */
  function Fill(dense: Dense, arrs: seq<ArrDecl>): Dense
    decreases |arrs|
  {
    if arrs == [] then dense else Fill(SetDense(dense, arrs[0]), arrs[1..])
  }

  ghost predicate Unbound(dense: Dense, arrs: seq<ArrDecl>)
  {
    forall i :: 0 <= i < |arrs| && arrs[i].local < MAX_LOCALS ==> dense[arrs[i].local] == 0
  }

  lemma {:induction false} ArrListFits(nlocals: nat, dense: Dense, arrs: seq<ArrDecl>)
    requires nlocals <= MAX_LOCALS
    ensures ListFits(Arrs(nlocals), dense, arrs) <==> ArrsFit(arrs, nlocals) && Unbound(dense, arrs)
    decreases |arrs|
  {
    if arrs != [] {
      var a, tail := arrs[0], arrs[1..];
      assert forall i :: 0 < i < |arrs| ==> arrs[i] == tail[i - 1];
      if ArrFits(nlocals, dense, a) {
        ArrListFits(nlocals, SetDense(dense, a), tail);
        ArrsFitTail(arrs, nlocals);
        UnboundTail(dense, arrs);
      }
    }
  }

  ghost predicate Apart(a: ArrDecl, arrs: seq<ArrDecl>)
  {
    forall i :: 0 <= i < |arrs| ==> a.local != arrs[i].local
  }

  lemma ArrsFitTail(arrs: seq<ArrDecl>, nlocals: nat)
    requires arrs != [] && arrs[0].local < nlocals && 1 <= arrs[0].len <= MAX_ARR_LEN
    ensures ArrsFit(arrs, nlocals) <==> ArrsFit(arrs[1..], nlocals) && Apart(arrs[0], arrs[1..])
  {
    var tail := arrs[1..];
    assert forall i :: 0 < i < |arrs| ==> arrs[i] == tail[i - 1];
    assert forall i :: 0 <= i < |tail| ==> tail[i] == arrs[i + 1];
  }

  lemma UnboundTail(dense: Dense, arrs: seq<ArrDecl>)
    requires arrs != [] && arrs[0].local < MAX_LOCALS && arrs[0].len > 0 && dense[arrs[0].local] == 0
    requires forall i :: 0 < i < |arrs| ==> arrs[i] == arrs[1..][i - 1]
    ensures Unbound(SetDense(dense, arrs[0]), arrs[1..]) <==> Unbound(dense, arrs) && Apart(arrs[0], arrs[1..])
  {
    var tail := arrs[1..];
    assert forall i :: 0 <= i < |tail| ==> tail[i] == arrs[i + 1];
  }

  // ---------------------------------------------------------------- instructions

  /** The opcodes by number, up to 32. */
  function OpOf(n: nat): VmOp
  {
    match n
    case 0 => IPush case 1 => ILoad case 2 => IStore case 3 => IAdd
    case 4 => ISub case 5 => IMul case 6 => IDiv case 7 => IMod
    case 8 => IAnd case 9 => IOr case 10 => IXor case 11 => INot
    case 12 => INeg case 13 => IShl case 14 => IShr case 15 => IUshr
    case 16 => IEq case 17 => INe case 18 => ILt case 19 => IGt
    case 20 => ILe case 21 => IGe case 22 => ILogNot case 23 => IJump
    case 24 => IJumpF case 25 => IJumpFKeep case 26 => IJumpTKeep case 27 => IPop
    case 28 => ICall case 29 => IRet case 30 => ILoadIdx case 31 => IStoreIdx
    case _ => IArrLen
  }

  function OpCode(op: VmOp): (r: nat)
    ensures r <= 33
  {
    match op
    case IPush => 0 case ILoad => 1 case IStore => 2
    case IAdd => 3 case ISub => 4 case IMul => 5 case IDiv => 6 case IMod => 7
    case IAnd => 8 case IOr => 9 case IXor => 10 case INot => 11 case INeg => 12
    case IShl => 13 case IShr => 14 case IUshr => 15
    case IEq => 16 case INe => 17 case ILt => 18 case IGt => 19 case ILe => 20 case IGe => 21
    case ILogNot => 22
    case IJump => 23 case IJumpF => 24 case IJumpFKeep => 25 case IJumpTKeep => 26
    case IPop => 27 case ICall => 28 case IRet => 29
    case ILoadIdx => 30 case IStoreIdx => 31 case IArrLen => 32 case IAbi => 33
  }

  lemma OpNumbers(op: VmOp, n: nat)
    ensures n <= 32 ==> (OpOf(n) == op <==> OpCode(op) == n)
  {
  }

  function AsI64(v: nat): i64 { FromU64(v % TWO64) }

  lemma AsI64Exact(v: nat, a: i64)
    requires v < TWO64
    ensures AsI64(v) == a <==> v == ToU64(a)
  {
  }

  /** The bounds an instruction is written against: its function's code length and locals, and
      the number of functions. */
  datatype Bounds = Bounds(codeLen: nat, nFns: nat, nlocals: nat)

  /** What the switch on the opcode number objects to. */
  function OperandError(op: nat, a: i64, k: Bounds): LoadErr
  {
    if 23 <= op <= 26 then if a < 0 || a >= k.codeLen then LdJump else LdOk
    else if op == 28 then if a < 0 || a >= k.nFns then LdCall else LdOk
    else if op in {1, 2, 30, 31, 32} then if a < 0 || a >= k.nlocals then LdLocal else LdOk
    else LdOk
  }

  function ReadIns(k: Bounds, b: bytes): Res<Ins>
  {
    var (op, r1) :- Field(b, 1, LdSection);
    var (v, r2) :- Field(r1, 8, LdSection);
    if op > 32 then Bad(LdOpcode)
    else if OperandError(op, AsI64(v), k) != LdOk then Bad(OperandError(op, AsI64(v), k))
    else Got(Ins(OpOf(op), AsI64(v)), r2)
  }

  function EncIns(i: Ins): bytes { LE(OpCode(i.op), 1) + LE(ToU64(i.a), 8) }

  /** Instructions are read and checked independently of each other. */
  function Code(k: Bounds): Format<nat, Ins>
  {
    Format((s: nat, b: bytes) => ReadIns(k, b), (s: nat, i: Ins) => s,
           (s: nat, i: Ins) => InsFits(i, k.codeLen, k.nFns, k.nlocals), (s: nat, i: Ins) => EncIns(i))
  }

  lemma InsFitsNumber(i: Ins, k: Bounds)
    ensures InsFits(i, k.codeLen, k.nFns, k.nlocals) <==>
              OpCode(i.op) <= 32 && OperandError(OpCode(i.op), i.a, k) == LdOk
  {
  }

  lemma InsExact(k: Bounds, b: bytes, i: Ins, rest: bytes)
    ensures ReadIns(k, b) == Got(i, rest) <==> InsFits(i, k.codeLen, k.nFns, k.nlocals) && b == EncIns(i) + rest
  {
    hide InsFits, OperandError, OpCode;
    SmallPowers();
    assert Pow256(1) == 256 * Pow256(0);
    InsFitsNumber(i, k);
    var op, v := OpCode(i.op), ToU64(i.a);
    Regroup(LE(op, 1), LE(v, 8), rest);
    FieldExact(b, 1, LdSection, op, LE(v, 8) + rest);
    FieldExact(LE(v, 8) + rest, 8, LdSection, v, rest);
    OpNumbers(i.op, op);
    AsI64Exact(v, i.a);
    if ReadIns(k, b) == Got(i, rest) {
      var f1 := Field(b, 1, LdSection);
      var f2 := Field(f1.rest, 8, LdSection);
      FieldExact(f1.rest, 8, LdSection, f2.v, rest);
      FieldExact(b, 1, LdSection, f1.v, f1.rest);
      OpNumbers(i.op, f1.v);
      AsI64Exact(f2.v, i.a);
    }
  }

  lemma CodeExact(k: Bounds)
    ensures Exact(Code(k))
  {
    hide InsFits, ReadIns, EncIns;
    forall s: nat, b: bytes, i: Ins, rest: bytes ensures ReadsBack(Code(k), s, b, i, rest) {
      InsExact(k, b, i, rest);
    }
  }

  ghost predicate CodeFits(k: Bounds, code: seq<Ins>)
  {
    forall i :: 0 <= i < |code| ==> InsFits(code[i], k.codeLen, k.nFns, k.nlocals)
  }

  lemma {:induction false} CodeListFits(k: Bounds, s: nat, code: seq<Ins>)
    ensures ListFits(Code(k), s, code) <==> CodeFits(k, code)
    decreases |code|
  {
    hide InsFits;
    if code != [] {
      CodeListFits(k, s, code[1..]);
      assert forall i :: 0 < i < |code| ==> code[i] == code[1..][i - 1];
    }
  }

  // ---------------------------------------------------------------- functions

  datatype Names = Names(nStrings: nat, nFns: nat)

  datatype FnHead = FnHead(name: nat, nparams: nat, nlocals: nat, nArrs: nat, codeLen: nat)

  predicate HeadFits(n: Names, h: FnHead)
  {
    h.name < n.nStrings && h.codeLen > 0 && h.nparams <= h.nlocals <= MAX_LOCALS && h.nArrs <= MAX_FN_ARRS
  }

  function ReadHead(n: Names, b: bytes): (r: Res<FnHead>)
    ensures r.Got? ==> HeadFits(n, r.v)
  {
    var (name, r1) :- Field(b, 4, LdSection);
    if name >= n.nStrings then Bad(LdFn) else
    var (nparams, r2) :- Field(r1, 1, LdSection);
    var (nlocals, r3) :- Field(r2, 1, LdSection);
    var (nArrs, r4) :- Field(r3, 1, LdSection);
    var (codeLen, r5) :- Field(r4, 4, LdSection);
    if codeLen == 0 then Bad(LdFn)
    else if nparams > nlocals || nlocals > MAX_LOCALS then Bad(LdFn)
    else if nArrs > MAX_FN_ARRS then Bad(LdFn)
    else Got(FnHead(name, nparams, nlocals, nArrs, codeLen), r5)
  }

  function EncHead(h: FnHead): bytes
  {
    LE(h.name, 4) + (LE(h.nparams, 1) + (LE(h.nlocals, 1) + (LE(h.nArrs, 1) + LE(h.codeLen, 4))))
  }

  lemma ReadHeadSound(n: Names, b: bytes)
    requires ReadHead(n, b).Got?
    ensures var r := ReadHead(n, b); r.v.codeLen < 0x1_0000_0000 && b == EncHead(r.v) + r.rest
  {
    SmallPowers();
    var f1 := Field(b, 4, LdSection);
    var f2 := Field(f1.rest, 1, LdSection);
    var f3 := Field(f2.rest, 1, LdSection);
    var f4 := Field(f3.rest, 1, LdSection);
    var f5 := Field(f4.rest, 4, LdSection);
    FieldExact(b, 4, LdSection, f1.v, f1.rest);
    FieldExact(f1.rest, 1, LdSection, f2.v, f2.rest);
    FieldExact(f2.rest, 1, LdSection, f3.v, f3.rest);
    FieldExact(f3.rest, 1, LdSection, f4.v, f4.rest);
    FieldExact(f4.rest, 4, LdSection, f5.v, f5.rest);
    FiveRegroup(LE(f1.v, 4), LE(f2.v, 1), LE(f3.v, 1), LE(f4.v, 1), LE(f5.v, 4), f5.rest);
  }

  lemma FiveRegroup(a: bytes, b: bytes, c: bytes, d: bytes, e: bytes, rest: bytes)
    ensures (a + (b + (c + (d + e)))) + rest == a + (b + (c + (d + (e + rest))))
  {
    Regroup(a, b + (c + (d + e)), rest);
    Regroup(b, c + (d + e), rest);
    Regroup(c, d + e, rest);
    Regroup(d, e, rest);
  }

  lemma ReadHeadComplete(n: Names, h: FnHead, rest: bytes)
    requires HeadFits(n, h) && h.codeLen < 0x1_0000_0000 && n.nStrings <= MAX_STRINGS
    ensures ReadHead(n, EncHead(h) + rest) == Got(h, rest)
  {
    SmallPowers();
    assert Pow256(1) == 256 * Pow256(0);
    var e := LE(h.codeLen, 4) + rest;
    var d := LE(h.nArrs, 1) + e;
    var c := LE(h.nlocals, 1) + d;
    var b := LE(h.nparams, 1) + c;
    var a := LE(h.name, 4) + b;
    FiveRegroup(LE(h.name, 4), LE(h.nparams, 1), LE(h.nlocals, 1), LE(h.nArrs, 1), LE(h.codeLen, 4), rest);
    FieldExact(a, 4, LdSection, h.name, b);
    FieldExact(b, 1, LdSection, h.nparams, c);
    FieldExact(c, 1, LdSection, h.nlocals, d);
    FieldExact(d, 1, LdSection, h.nArrs, e);
    FieldExact(e, 4, LdSection, h.codeLen, rest);
  }

  function ReadFn(n: Names, used: nat, b: bytes): Res<FnDecl>
  {
    var (h, r1) :- ReadHead(n, b);
    var (arrs, r2) :- ReadList(Arrs(h.nlocals), NoArrays(), h.nArrs, r1);
    if used + h.codeLen > MAX_INS_TOTAL then Bad(LdCount) else
    var (code, r3) :- ReadList(Code(Bounds(h.codeLen, n.nFns, h.nlocals)), 0, h.codeLen, r2);
    Got(FnDecl(h.name, h.nparams, h.nlocals, arrs, code), r3)
  }

  function HeadOf(f: FnDecl): FnHead { FnHead(f.name, f.nparams, f.nlocals, |f.arrs|, |f.code|) }

  function EncFn(n: Names, f: FnDecl): bytes
  {
    if f.nlocals > MAX_LOCALS then []
    else EncHead(HeadOf(f))
         + (ListEnc(Arrs(f.nlocals), NoArrays(), f.arrs)
            + ListEnc(Code(Bounds(|f.code|, n.nFns, f.nlocals)), 0, f.code))
  }

  /** The state is the number of instructions in earlier functions. */
  function Fns(n: Names): Format<nat, FnDecl>
  {
    Format<nat, FnDecl>.Format((used: nat, b: bytes) => ReadFn(n, used, b),
           (used: nat, f: FnDecl) => used + |f.code|,
           (used: nat, f: FnDecl) => FnFits(f, n.nStrings, n.nFns) && used + |f.code| <= MAX_INS_TOTAL,
           (used: nat, f: FnDecl) => EncFn(n, f))
  }

  lemma ThreeRegroup(a: bytes, b: bytes, c: bytes, rest: bytes)
    ensures (a + (b + c)) + rest == a + (b + (c + rest))
  {
    Regroup(a, b + c, rest);
    Regroup(b, c, rest);
  }

  /** The list conditions of a function are those of a well-formed function. */
  lemma FnFitsLists(n: Names, f: FnDecl)
    requires f.nlocals <= MAX_LOCALS
    ensures FnFits(f, n.nStrings, n.nFns) <==>
      && HeadFits(n, HeadOf(f)) && ListFits(Arrs(f.nlocals), NoArrays(), f.arrs)
      && ListFits(Code(Bounds(|f.code|, n.nFns, f.nlocals)), 0, f.code)
  {
    hide InsFits, ArrsFit;
    ArrListFits(f.nlocals, NoArrays(), f.arrs);
    CodeListFits(Bounds(|f.code|, n.nFns, f.nlocals), 0, f.code);
  }

  lemma FnSound(n: Names, used: nat, b: bytes)
    requires ReadFn(n, used, b).Got?
    ensures var r := ReadFn(n, used, b);
            FnFits(r.v, n.nStrings, n.nFns) && used + |r.v.code| <= MAX_INS_TOTAL && b == EncFn(n, r.v) + r.rest
  {
    hide FnFits, ListFits, ListEnc, ReadHead, EncHead, Arrs, Code, Exact;
    var h := ReadHead(n, b);
    var k := Bounds(h.v.codeLen, n.nFns, h.v.nlocals);
    var arrs := ReadList(Arrs(h.v.nlocals), NoArrays(), h.v.nArrs, h.rest);
    var code := ReadList(Code(k), 0, h.v.codeLen, arrs.rest);
    ReadHeadSound(n, b);
    ArrsExact(h.v.nlocals);
    ListExact(Arrs(h.v.nlocals), NoArrays(), h.rest, arrs.v, arrs.rest);
    CodeExact(k);
    ListExact(Code(k), 0, arrs.rest, code.v, code.rest);
    var f := ReadFn(n, used, b).v;
    FnFitsLists(n, f);
    ThreeRegroup(EncHead(h.v), ListEnc(Arrs(h.v.nlocals), NoArrays(), arrs.v), ListEnc(Code(k), 0, code.v), code.rest);
  }

  lemma FnComplete(n: Names, used: nat, f: FnDecl, rest: bytes)
    requires n.nStrings <= MAX_STRINGS
    requires FnFits(f, n.nStrings, n.nFns) && used + |f.code| <= MAX_INS_TOTAL
    ensures ReadFn(n, used, EncFn(n, f) + rest) == Got(f, rest)
  {
    hide FnFits, ListFits, ListEnc, ReadHead, EncHead, Arrs, Code, Exact;
    FnLocals(n, f);
    FnFitsLists(n, f);
    var k := Bounds(|f.code|, n.nFns, f.nlocals);
    var arrs, code := ListEnc(Arrs(f.nlocals), NoArrays(), f.arrs), ListEnc(Code(k), 0, f.code);
    ThreeRegroup(EncHead(HeadOf(f)), arrs, code, rest);
    ReadHeadComplete(n, HeadOf(f), arrs + (code + rest));
    ArrsExact(f.nlocals);
    ListExact(Arrs(f.nlocals), NoArrays(), arrs + (code + rest), f.arrs, code + rest);
    CodeExact(k);
    ListExact(Code(k), 0, code + rest, f.code, rest);
  }

  lemma FnLocals(n: Names, f: FnDecl)
    requires FnFits(f, n.nStrings, n.nFns)
    ensures f.nlocals <= MAX_LOCALS
  {
  }

  lemma FnsExact(n: Names)
    requires n.nStrings <= MAX_STRINGS
    ensures Exact(Fns(n))
  {
    hide FnFits, ReadFn, EncFn;
    forall used: nat, b: bytes, f: FnDecl, rest: bytes ensures ReadsBack(Fns(n), used, b, f, rest) {
      if ReadFn(n, used, b) == Got(f, rest) {
        FnSound(n, used, b);
      }
      if FnFits(f, n.nStrings, n.nFns) && used + |f.code| <= MAX_INS_TOTAL {
        FnComplete(n, used, f, rest);
      }
    }
  }

  lemma {:induction false} FnsFit(n: Names, used: nat, fns: seq<FnDecl>)
    requires used <= MAX_INS_TOTAL
    ensures ListFits(Fns(n), used, fns) <==>
      && (forall i :: 0 <= i < |fns| ==> FnFits(fns[i], n.nStrings, n.nFns))
      && used + Total(CodeLengths(fns)) <= MAX_INS_TOTAL
    decreases |fns|
  {
    hide FnFits, EncFn, ReadFn;
    if fns != [] {
      assert CodeLengths(fns)[1..] == CodeLengths(fns[1..]);
      assert forall i :: 0 < i < |fns| ==> fns[i] == fns[1..][i - 1];
      assert forall i :: 0 <= i < |fns[1..]| ==> fns[1..][i] == fns[i + 1];
      if used + |fns[0].code| <= MAX_INS_TOTAL {
        FnsFit(n, used + |fns[0].code|, fns[1..]);
      }
    }
  }

  // ---------------------------------------------------------------- images

  datatype Header = Header(profile: nat, nStrings: nat, nFns: nat, nRegions: nat, nAbis: nat)

  predicate HeaderFits(h: Header)
  {
    && 1 <= h.profile <= 2 && h.nStrings <= MAX_STRINGS && h.nFns <= MAX_FNS
    && h.nRegions <= MAX_REGIONS && h.nAbis <= MAX_ABIS
  }

  /** Version 1, profile 1 or 2, flags 0. */
  function ReadProfile(b: bytes): Res<nat>
  {
    var (version, r1) :- Field(b, 1, LdVersion);
    if version != 1 then Bad(LdVersion) else
    var (profile, r2) :- Field(r1, 1, LdSection);
    if profile != 1 && profile != 2 then Bad(LdProfile) else
    var (flags, r3) :- Field(r2, 1, LdFlags);
    if flags != 0 then Bad(LdFlags) else Got(profile, r3)
  }

  function ReadCounts(profile: nat, b: bytes): Res<Header>
  {
    var (nStrings, r4) :- Field(b, 4, LdShort);
    var (nFns, r5) :- Field(r4, 4, LdShort);
    var (nRegions, r6) :- Field(r5, 4, LdShort);
    var (nAbis, r7) :- Field(r6, 4, LdShort);
    if nStrings > MAX_STRINGS || nFns > MAX_FNS || nRegions > MAX_REGIONS || nAbis > MAX_ABIS then Bad(LdCount)
    else Got(Header(profile, nStrings, nFns, nRegions, nAbis), r7)
  }

  function ReadHeader(b: bytes): Res<Header>
  {
    var (profile, r) :- ReadProfile(b);
    ReadCounts(profile, r)
  }

  function EncProfile(profile: nat): bytes { LE(1, 1) + (LE(profile, 1) + LE(0, 1)) }

  function EncCounts(h: Header): bytes
  {
    LE(h.nStrings, 4) + (LE(h.nFns, 4) + (LE(h.nRegions, 4) + LE(h.nAbis, 4)))
  }

  function EncHeader(h: Header): bytes { EncProfile(h.profile) + EncCounts(h) }

  lemma ProfileExact(b: bytes, profile: nat, rest: bytes)
    ensures ReadProfile(b) == Got(profile, rest) <==> 1 <= profile <= 2 && b == EncProfile(profile) + rest
  {
    hide Field, LE;
    assert Pow256(1) == 256 * Pow256(0);
    ThreeRegroup(LE(1, 1), LE(profile, 1), LE(0, 1), rest);
    var b2 := LE(0, 1) + rest;
    var b1 := LE(profile, 1) + b2;
    FieldExact(b, 1, LdVersion, 1, b1);
    FieldExact(b1, 1, LdSection, profile, b2);
    FieldExact(b2, 1, LdFlags, 0, rest);
    if ReadProfile(b) == Got(profile, rest) {
      var f1 := Field(b, 1, LdVersion);
      var f2 := Field(f1.rest, 1, LdSection);
      FieldExact(b, 1, LdVersion, 1, f1.rest);
      FieldExact(f1.rest, 1, LdSection, profile, f2.rest);
      FieldExact(f2.rest, 1, LdFlags, 0, rest);
    }
  }

  lemma FourRegroup(a: bytes, b: bytes, c: bytes, d: bytes, rest: bytes)
    ensures (a + (b + (c + d))) + rest == a + (b + (c + (d + rest)))
  {
    Regroup(a, b + (c + d), rest);
    Regroup(b, c + d, rest);
    Regroup(c, d, rest);
  }

  lemma CountsExact(b: bytes, h: Header, rest: bytes)
    requires 1 <= h.profile <= 2
    ensures ReadCounts(h.profile, b) == Got(h, rest) <==> HeaderFits(h) && b == EncCounts(h) + rest
  {
    SmallPowers();
    FourRegroup(LE(h.nStrings, 4), LE(h.nFns, 4), LE(h.nRegions, 4), LE(h.nAbis, 4), rest);
    if ReadCounts(h.profile, b) == Got(h, rest) {
      var f1 := Field(b, 4, LdShort);
      var f2 := Field(f1.rest, 4, LdShort);
      var f3 := Field(f2.rest, 4, LdShort);
      FieldExact(b, 4, LdShort, h.nStrings, f1.rest);
      FieldExact(f1.rest, 4, LdShort, h.nFns, f2.rest);
      FieldExact(f2.rest, 4, LdShort, h.nRegions, f3.rest);
      FieldExact(f3.rest, 4, LdShort, h.nAbis, rest);
    }
    if HeaderFits(h) && b == EncCounts(h) + rest {
      var b3 := LE(h.nAbis, 4) + rest;
      var b2 := LE(h.nRegions, 4) + b3;
      var b1 := LE(h.nFns, 4) + b2;
      FieldExact(b, 4, LdShort, h.nStrings, b1);
      FieldExact(b1, 4, LdShort, h.nFns, b2);
      FieldExact(b2, 4, LdShort, h.nRegions, b3);
      FieldExact(b3, 4, LdShort, h.nAbis, rest);
    }
  }

  lemma CountsProfile(profile: nat, b: bytes)
    ensures ReadCounts(profile, b).Got? ==> ReadCounts(profile, b).v.profile == profile
  {
  }

  lemma HeaderExact(b: bytes, h: Header, rest: bytes)
    ensures ReadHeader(b) == Got(h, rest) <==> HeaderFits(h) && b == EncHeader(h) + rest
  {
    hide ReadProfile, EncProfile, EncCounts, Field;
    Regroup(EncProfile(h.profile), EncCounts(h), rest);
    ProfileExact(b, h.profile, EncCounts(h) + rest);
    if 1 <= h.profile <= 2 {
      CountsExact(EncCounts(h) + rest, h, rest);
    }
    var p := ReadProfile(b);
    if ReadHeader(b) == Got(h, rest) {
      ProfileExact(b, p.v, p.rest);
      CountsProfile(p.v, p.rest);
      CountsExact(p.rest, h, rest);
    }
  }

  function HeaderOf(im: Image): Header
  {
    Header(im.profile, |im.strings|, |im.fns|, |im.cells|, |im.abis|)
  }

  /** The four sections behind the header. */
  function ReadSections(h: Header, b: bytes): Res<Image>
  {
    var (strings, r1) :- ReadList(Strings(), 0, h.nStrings, b);
    if h.profile == 1 && h.nRegions != 0 then Bad(LdRegion) else
    var (cells, r2) :- ReadList(Regions(), RegionCount(0, 0), h.nRegions, r1);
    var (abis, r3) :- ReadList(Abis(), 0, h.nAbis, r2);
    var (fns, r4) :- ReadList(Fns(Names(h.nStrings, h.nFns)), 0, h.nFns, r3);
    Got(Image(h.profile, strings, cells, abis, fns), r4)
  }

  function EncSections(im: Image): bytes
  {
    ListEnc(Strings(), 0, im.strings)
    + (ListEnc(Regions(), RegionCount(0, 0), im.cells)
       + (ListEnc(Abis(), 0, im.abis)
          + ListEnc(Fns(Names(|im.strings|, |im.fns|)), 0, im.fns)))
  }

  predicate SectionsFit(im: Image)
  {
    && ListFits(Strings(), 0, im.strings)
    && (im.profile == 1 ==> im.cells == [])
    && ListFits(Regions(), RegionCount(0, 0), im.cells)
    && ListFits(Abis(), 0, im.abis)
    && ListFits(Fns(Names(|im.strings|, |im.fns|)), 0, im.fns)
  }

  lemma ValidImageLists(im: Image)
    ensures ValidImage(im) <==> HeaderFits(HeaderOf(im)) && SectionsFit(im)
  {
    hide FnFits, ListFits, Strings, Regions, Abis, Fns;
    StringsFit(0, im.strings);
    if |im.cells| <= MAX_REGIONS {
      RegionsFit(0, 0, im.cells);
    }
    AbisFit(0, im.abis);
    FnsFit(Names(|im.strings|, |im.fns|), 0, im.fns);
  }

  lemma SectionsExact(b: bytes, im: Image, rest: bytes)
    requires HeaderFits(HeaderOf(im))
    ensures ReadSections(HeaderOf(im), b) == Got(im, rest) <==> SectionsFit(im) && b == EncSections(im) + rest
  {
    hide ListFits, ListEnc, Strings, Regions, Abis, Fns, Exact;
    var n := Names(|im.strings|, |im.fns|);
    var es, er := ListEnc(Strings(), 0, im.strings), ListEnc(Regions(), RegionCount(0, 0), im.cells);
    var ea, ef := ListEnc(Abis(), 0, im.abis), ListEnc(Fns(n), 0, im.fns);
    FourRegroup(es, er, ea, ef, rest);
    StringsExact();
    RegionsExact();
    AbisExact();
    FnsExact(n);
    if ReadSections(HeaderOf(im), b) == Got(im, rest) {
      var f1 := ReadList(Strings(), 0, |im.strings|, b);
      var f2 := ReadList(Regions(), RegionCount(0, 0), |im.cells|, f1.rest);
      var f3 := ReadList(Abis(), 0, |im.abis|, f2.rest);
      ListExact(Strings(), 0, b, im.strings, f1.rest);
      ListExact(Regions(), RegionCount(0, 0), f1.rest, im.cells, f2.rest);
      ListExact(Abis(), 0, f2.rest, im.abis, f3.rest);
      ListExact(Fns(n), 0, f3.rest, im.fns, rest);
    }
    if SectionsFit(im) && b == EncSections(im) + rest {
      ListExact(Strings(), 0, b, im.strings, er + (ea + (ef + rest)));
      ListExact(Regions(), RegionCount(0, 0), er + (ea + (ef + rest)), im.cells, ea + (ef + rest));
      ListExact(Abis(), 0, ea + (ef + rest), im.abis, ef + rest);
      ListExact(Fns(n), 0, ef + rest, im.fns, rest);
    }
  }

  function ReadImage(b: bytes): Res<Image>
  {
    var (h, r) :- ReadHeader(b);
    ReadSections(h, r)
  }

  function Fields(im: Image): bytes { EncHeader(HeaderOf(im)) + EncSections(im) }

  lemma ImageExact(b: bytes, im: Image, rest: bytes)
    ensures ReadImage(b) == Got(im, rest) <==> ValidImage(im) && b == Fields(im) + rest
  {
    hide ValidImage, SectionsFit, EncSections, ReadHeader, EncHeader, HeaderFits;
    ValidImageLists(im);
    Regroup(EncHeader(HeaderOf(im)), EncSections(im), rest);
    if ReadImage(b) == Got(im, rest) {
      var f := ReadHeader(b);
      SectionsHeader(f.v, f.rest);
      HeaderExact(b, f.v, f.rest);
      SectionsExact(f.rest, im, rest);
    }
    if ValidImage(im) && b == Fields(im) + rest {
      HeaderExact(b, HeaderOf(im), EncSections(im) + rest);
      SectionsExact(EncSections(im) + rest, im, rest);
    }
  }

  lemma SectionsHeader(h: Header, b: bytes)
    requires ReadSections(h, b).Got?
    ensures HeaderOf(ReadSections(h, b).v) == h
  {
  }

  // ---------------------------------------------------------------- sealed images

  /** Everything in front of the trailing digest. */
  function ImageBody(im: Image): bytes { MAGIC + Fields(im) }

  /** An image as a file: its body and the digest of its body. */
  function Seal(h: Hash, im: Image): bytes { ImageBody(im) + h(DOMAIN + ImageBody(im)) }

  datatype Outcome = Loaded(im: Image) | Rejected(err: Trouble)

  function Load(h: Hash, img: bytes): Outcome
  {
    if |img| < 25 + 32 then Rejected(LdShort)
    else if img[..6] != MAGIC then Rejected(LdMagic)
    else
      var body := img[..|img| - 32];
      var r := ReadImage(body[6..]);
      if r.Bad? then Rejected(r.err)
      else if r.rest != [] then Rejected(LdTrailing)
      else if h(DOMAIN + body) != img[|img| - 32..] then Rejected(LdSelfHash)
      else Loaded(r.v)
  }

  /** The loader accepts exactly the sealed well-formed images, and reads them back. */
  lemma LoadExact(h: Hash, img: bytes, im: Image)
    ensures Load(h, img) == Loaded(im) <==> ValidImage(im) && img == Seal(h, im)
  {
    hide Load, Seal, ValidImage;
    if Load(h, img) == Loaded(im) { LoadSound(h, img, im); }
    if ValidImage(im) && img == Seal(h, im) { LoadComplete(h, img, im); }
  }

  lemma LoadSound(h: Hash, img: bytes, im: Image)
    requires Load(h, img) == Loaded(im)
    ensures ValidImage(im) && img == Seal(h, im)
  {
    hide ValidImage, ReadImage, Fields;
    var body := img[..|img| - 32];
    TakeDrop(img, |img| - 32);
    TakeDrop(body, 6);
    assert body[..6] == img[..6];
    ImageExact(body[6..], im, []);
    assert Fields(im) + [] == Fields(im);
  }

  lemma LoadComplete(h: Hash, img: bytes, im: Image)
    requires ValidImage(im) && img == Seal(h, im)
    ensures Load(h, img) == Loaded(im)
  {
    hide ValidImage, ReadImage, Fields;
    var body := ImageBody(im);
    FieldsLength(im);
    ConcatParts(body, h(DOMAIN + body));
    ConcatParts(MAGIC, Fields(im));
    assert img[..|img| - 32] == body && img[|img| - 32..] == h(DOMAIN + body);
    assert img[..6] == body[..6];
    assert Fields(im) + [] == Fields(im);
    ImageExact(body[6..], im, []);
  }

  lemma FieldsLength(im: Image)
    ensures |Fields(im)| >= 19
  {
  }

  /** So different images have different files, whatever the hash function is. */
  lemma SealInjective(h: Hash, a: Image, b: Image)
    requires ValidImage(a) && ValidImage(b) && Seal(h, a) == Seal(h, b)
    ensures a == b
  {
    hide ValidImage, Seal;
    LoadExact(h, Seal(h, a), a);
    LoadExact(h, Seal(h, b), b);
  }
}
