/** The byte formats by offsets and characters: what has to stand where in log frames, checkpoint
    files, hashed leaves and nodes, RLP strings and images. */
module Layouts {
  import opened Bytes
  import opened Int64
  import MemTable
  import Wal
  import StoreMerkle
  import StoreSpec
  import HashTrees
  import SettleTree
  import GateManifest
  import Decimals
  import MerkleProof
  import Rlp
  import Vm
  import LinImage

  // ---------------------------------------------------------------- pieces of a string

  ghost predicate At(b: bytes, at: nat, piece: bytes)
  {
    at + |piece| <= |b| && b[at..at + |piece|] == piece
  }

  /** The little-endian number in `w` bytes. */
  ghost predicate Number(b: bytes, at: nat, w: nat, v: nat)
  {
    at + w <= |b| && FromLE(b[at..at + w]) == v
  }

  lemma AtStart(a: bytes, rest: bytes)
    ensures At(a + rest, 0, a) && At(a + rest, |a|, rest)
  {
  }

  lemma AtTwo(b: bytes, at: nat, c: bytes, d: bytes)
    ensures At(b, at, c + d) <==> At(b, at, c) && At(b, at + |c|, d)
  {
    if At(b, at, c + d) {
      assert b[at..at + |c|] == (c + d)[..|c|];
      assert b[at + |c|..at + |c| + |d|] == (c + d)[|c|..];
    }
    if At(b, at, c) && At(b, at + |c|, d) {
      assert b[at..at + |c + d|] == b[at..at + |c|] + b[at + |c|..at + |c| + |d|];
    }
  }

  lemma AtNumber(b: bytes, at: nat, w: nat, v: nat)
    requires At(b, at, LE(v, w)) && v < Pow256(w)
    ensures Number(b, at, w, v)
  {
    LERoundTrip(v, w);
  }

  lemma AtByte(b: bytes, at: nat, v: nat)
    requires At(b, at, LE(v, 1)) && v < 256
    ensures at < |b| && b[at] == v
  {
    assert LE(v, 1) == [v % 256] + LE(v / 256, 0);
    assert b[at..at + 1][0] == b[at];
  }

  function Ascii(s: string): (b: bytes)
    requires forall i :: 0 <= i < |s| ==> s[i] as int < 128
    ensures |b| == |s|
  {
    seq(|s|, i requires 0 <= i < |s| => s[i] as int)
  }

  // ---------------------------------------------------------------- the store

  /** A frame: its length without the length field; 1 for a put and 2 for a deletion; the lengths of
      key and value; key and value; and the digest of all but the length field. */
  ghost predicate FrameBytes(h: Hash, b: bytes, op: Wal.Op)
  {
    var k, val := |op.key|, if op.Put? then op.val else [];
    var e := 11 + k + |val|;
    && |b| == e + 32 && Number(b, 0, 4, e + 28)
    && b[4] == (if op.Put? then 1 else 2) && Number(b, 5, 2, k) && Number(b, 7, 4, |val|)
    && b[11..11 + k] == op.key && b[11 + k..e] == val
    && b[e..] == h(b[4..e])
  }

  lemma FrameLayout(h: Hash, op: Wal.Op)
    requires Wal.ValidOp(op)
    ensures FrameBytes(h, Wal.Frame(h, op), op)
  {
    hide LE, FromLE;
    SmallPowers();
    var b, k, val := Wal.Frame(h, op), |op.key|, op.Payload();
    var c, e := [op.Code()], 11 + k + |val|;
    var body, digest: bytes := Wal.Body(op), h(Wal.Body(op));
    AtStart(LE(Wal.FrameLen(op), 4), body + digest);
    AtTwo(b, 4, body, digest);
    AtTwo(b, 4, c, LE(k, 2) + (LE(|val|, 4) + (op.key + val)));
    AtTwo(b, 5, LE(k, 2), LE(|val|, 4) + (op.key + val));
    AtTwo(b, 7, LE(|val|, 4), op.key + val);
    AtTwo(b, 11, op.key, val);
    AtNumber(b, 0, 4, Wal.FrameLen(op));
    AtNumber(b, 5, 2, k);
    AtNumber(b, 7, 4, |val|);
    assert b[4] == b[4..5][0];
    assert b[e..] == b[e..e + 32];
  }

  /** The header of a log: "STRW", version 1, page size 4096, and nothing. */
  lemma HeaderLayout()
    ensures var b := Wal.HEADER;
            && |b| == 12 && b[..4] == Ascii("STRW")
            && Number(b, 4, 2, 1) && Number(b, 6, 4, 4096) && Number(b, 10, 2, 0)
  {
    hide FromLE, Number;
    var b := Wal.HEADER;
    assert b[..4] == Ascii("STRW");
    TwoBytes(b, 4);
    TwoBytes(b, 6);
    TwoBytes(b, 8);
    TwoBytes(b, 10);
    FourBytes(b, 6);
  }

  lemma TwoBytes(b: bytes, at: nat)
    requires at + 2 <= |b|
    ensures Number(b, at, 2, b[at] as int + 256 * b[at + 1] as int)
  {
    var t := b[at..at + 2];
    FromLEStep(t);
    FromLEStep(t[1..]);
    assert t[1..][1..] == [];
  }

  lemma FourBytes(b: bytes, at: nat)
    requires at + 4 <= |b|
    ensures Number(b, at, 4, b[at] as int + 256 * b[at + 1] as int
                             + 0x1_0000 * b[at + 2] as int + 0x100_0000 * b[at + 3] as int)
  {
    hide FromLE;
    var t := b[at..at + 4];
    FromLEStep(t);
    FromLEStep(t[1..]);
    assert t[1..][1..] == b[at + 2..at + 4];
    TwoBytes(b, at + 2);
  }

  lemma FromLEStep(b: bytes)
    requires b != []
    ensures FromLE(b) == b[0] + 256 * FromLE(b[1..])
  {
  }

  /** The text behind the root of an empty store. */
  lemma EmptyText()
    ensures StoreMerkle.EMPTY_TAG == Ascii("STR_EMPTY_v1")
  {
  }

  /** A checkpoint file: "STRCHK", version 1, the number of frames, the root, and the digest of it all. */
  lemma CheckpointLayout(h: Hash, frames: nat, root: Digest)
    requires frames < 0x1_0000_0000_0000_0000
    ensures var b := StoreSpec.ChkFile(h, frames, root);
            && |b| == 80 && b[..6] == Ascii("STRCHK") && Number(b, 6, 2, 1) && Number(b, 8, 8, frames)
            && b[16..48] == root && b[48..] == h(b[..48])
  {
    hide LE, FromLE;
    var b := StoreSpec.ChkFile(h, frames, root);
    StoreSpec.ChkParts(h, frames, root);
    assert b[48..] == b[48..80];
  }

  /** Operation i is the last one on its key. */
  ghost predicate LastOn(ops: seq<Wal.Op>, key: bytes, i: nat)
  {
    i < |ops| && ops[i].key == key && Untouched(ops[i + 1..], key)
  }

  ghost predicate Untouched(ops: seq<Wal.Op>, key: bytes)
  {
    forall i :: 0 <= i < |ops| ==> ops[i].key != key
  }

  lemma {:induction false} UntouchedKept(m: MemTable.Table, ops: seq<Wal.Op>, key: bytes)
    requires Untouched(ops, key)
    ensures var r := Wal.Replay(m, ops); (key in r <==> key in m) && (key in m ==> r[key] == m[key])
  {
    if ops != [] { UntouchedKept(m, ops[..|ops| - 1], key); }
  }

  /** The last operation on a key decides what a log leaves there; without one nothing changes. */
  lemma LastWins(m: MemTable.Table, ops: seq<Wal.Op>, key: bytes, i: nat)
    ensures var r := Wal.Replay(m, ops);
            && (Untouched(ops, key) ==> (key in r <==> key in m) && (key in m ==> r[key] == m[key]))
            && (LastOn(ops, key, i) ==> if ops[i].Put? then key in r && r[key] == ops[i].val else key !in r)
  {
    hide Wal.Replay, Untouched;
    if Untouched(ops, key) { UntouchedKept(m, ops, key); }
    if LastOn(ops, key, i) {
      assert ops == (ops[..i] + [ops[i]]) + ops[i + 1..];
      Wal.ReplayConcat(m, ops[..i] + [ops[i]], ops[i + 1..]);
      Wal.ReplaySnoc(m, ops[..i], ops[i]);
      UntouchedKept(Wal.Replay(m, ops[..i] + [ops[i]]), ops[i + 1..], key);
    }
  }

  /** What the store takes in: keys of 1 to 1024 bytes and values up to 1 MiB. */
  lemma Accepted(m: StoreSpec.Memory, key: bytes, val: bytes)
    ensures StoreSpec.PutResult(key, val) == StoreSpec.OK <==> 1 <= |key| <= 1024 && |val| <= 0x10_0000
    ensures StoreSpec.DelResult(m, key) == StoreSpec.OK <==> 1 <= |key| <= 1024 && key in m.table
  {
  }

  // ---------------------------------------------------------------- settlement batches

  /** Eight 64-bit words: the id, the status, the amount out, and the two low words of the amount in. */
  lemma SettleLeafLayout(s: SettleTree.Swap)
    requires SettleTree.FourWords(s)
    ensures var b := SettleTree.LeafInput(s);
            && |b| == 64 && Number(b, 0, 8, s.txId)
            && Number(b, 8, 8, if s.status < 0 then s.status + 0x1_0000_0000_0000_0000 else s.status)
            && Number(b, 16, 8, s.amountOut[0]) && Number(b, 24, 8, s.amountOut[1])
            && Number(b, 32, 8, s.amountOut[2]) && Number(b, 40, 8, s.amountOut[3])
            && Number(b, 48, 8, s.amountIn[0]) && Number(b, 56, 8, s.amountIn[1])
  {
    hide LE, FromLE;
    SmallPowers();
    var b := SettleTree.LeafInput(s);
    var w := [s.txId, ToU64(s.status), s.amountOut[0], s.amountOut[1], s.amountOut[2], s.amountOut[3],
              s.amountIn[0], s.amountIn[1]];
    assert At(b, 0, b);
    EightWords(b, w);
  }

  lemma EightWords(b: bytes, w: seq<u64>)
    requires |w| == 8
    requires At(b, 0, LE(w[0], 8) + (LE(w[1], 8) + (LE(w[2], 8) + (LE(w[3], 8)
             + (LE(w[4], 8) + (LE(w[5], 8) + (LE(w[6], 8) + LE(w[7], 8))))))))
    ensures forall i :: 0 <= i < 8 ==> Number(b, 8 * i, 8, w[i])
  {
    hide LE, Number, At;
    SmallPowers();
    var t6 := LE(w[6], 8) + LE(w[7], 8);
    var t5 := LE(w[5], 8) + t6;
    var t4 := LE(w[4], 8) + t5;
    var t3 := LE(w[3], 8) + t4;
    var t2 := LE(w[2], 8) + t3;
    var t1 := LE(w[1], 8) + t2;
    AtTwo(b, 0, LE(w[0], 8), t1);
    AtTwo(b, 8, LE(w[1], 8), t2);
    AtTwo(b, 16, LE(w[2], 8), t3);
    AtTwo(b, 24, LE(w[3], 8), t4);
    AtTwo(b, 32, LE(w[4], 8), t5);
    AtTwo(b, 40, LE(w[5], 8), t6);
    AtTwo(b, 48, LE(w[6], 8), LE(w[7], 8));
    forall i | 0 <= i < 8 ensures Number(b, 8 * i, 8, w[i]) { AtNumber(b, 8 * i, 8, w[i]); }
  }

  /** Pairs are hashed side by side, and a last node without a neighbour with itself. */
  function SettleNode(h: Hash): HashTrees.Combine
  {
    (l: Digest, r: Digest) => h(l + r)
  }

  lemma {:induction false} SettleRoot(h: Hash, level: seq<Digest>)
    requires level != []
    ensures HashTrees.IsRoot(SettleNode(h), HashTrees.Doubled, level, SettleTree.Root(h, level))
    decreases |level|
  {
    hide SettleNode, HashTrees.IsRoot, HashTrees.IsAbove, SettleTree.Up;
    if |level| == 1 {
      assert level == [level[0]];
      HashTrees.RootAlone(SettleNode(h), HashTrees.Doubled, level[0]);
    } else {
      var up := SettleTree.Up(h, level);
      SettleRoot(h, up);
      SettleAbove(h, level);
      HashTrees.RootAbove(SettleNode(h), HashTrees.Doubled, level, up, SettleTree.Root(h, up));
    }
  }

  lemma SettleAbove(h: Hash, level: seq<Digest>)
    ensures HashTrees.IsAbove(SettleNode(h), HashTrees.Doubled, level, SettleTree.Up(h, level))
  {
  }

  // ---------------------------------------------------------------- gate manifests and study trees

  /** The text of a manifest entry: its domain, path, size in decimal digits and digest in hexadecimal
      ones, with colons between them. */
  lemma GateLeafText(e: GateManifest.Entry)
    ensures GateManifest.LeafInput(e) ==
              Ascii("lin:gate:leaf:") + (e.path + (Ascii(":") + Decimals.DigitsOf(e.size))
              + (Ascii(":") + GateManifest.Hex(e.digest)))
  {
    assert Ascii("lin:gate:leaf:") == GateManifest.LEAF_DOM;
    assert Ascii(":") == [GateManifest.COLON];
  }

  lemma {:induction false} HexText(b: bytes, i: nat)
    requires i < |b|
    ensures var t := GateManifest.Hex(b);
            && t[2 * i] as char == "0123456789abcdef"[b[i] / 16]
            && t[2 * i + 1] as char == "0123456789abcdef"[b[i] % 16]
  {
    if i > 0 { HexText(b[1..], i - 1); }
  }

  function GateNode(h: Hash): HashTrees.Combine
  {
    (l: Digest, r: Digest) => h(Ascii("lin:gate:node:") + (l + r))
  }

  lemma {:induction false} GateRoot(h: Hash, level: seq<Digest>)
    requires level != []
    ensures HashTrees.IsRoot(GateNode(h), HashTrees.Promoted, level, GateManifest.RootOf(h, level))
    decreases |level|
  {
    hide GateNode, HashTrees.IsRoot, HashTrees.IsAbove, GateManifest.PairUp;
    if |level| == 1 {
      assert level == [level[0]];
      HashTrees.RootAlone(GateNode(h), HashTrees.Promoted, level[0]);
    } else {
      var up := GateManifest.PairUp(h, level);
      GateRoot(h, up);
      GateAbove(h, level);
      HashTrees.RootAbove(GateNode(h), HashTrees.Promoted, level, up, GateManifest.RootOf(h, up));
    }
  }

  lemma GateAbove(h: Hash, level: seq<Digest>)
    ensures HashTrees.IsAbove(GateNode(h), HashTrees.Promoted, level, GateManifest.PairUp(h, level))
  {
    hide GateNode, GateManifest.PairUp;
    var up := GateManifest.PairUp(h, level);
    forall i | 0 <= i < |up| ensures up[i] == HashTrees.Over(GateNode(h), HashTrees.Promoted, level, i) {
      PairAt(h, level, i);
      if 2 * i + 1 < |level| { GatePair(h, level[2 * i], level[2 * i + 1]); }
    }
  }

  lemma {:induction false} PairAt(h: Hash, level: seq<Digest>, i: nat)
    requires i < (|level| + 1) / 2
    ensures GateManifest.PairUp(h, level)[i] ==
              if 2 * i + 1 < |level| then h(GateManifest.NodeInput(level[2 * i], level[2 * i + 1])) else level[2 * i]
    decreases i
  {
    hide GateManifest.NodeInput;
    if i > 0 {
      PairAt(h, level[2..], i - 1);
      assert level[2..][2 * (i - 1)] == level[2 * i];
      if 2 * i + 1 < |level| { assert level[2..][2 * (i - 1) + 1] == level[2 * i + 1]; }
    }
  }

  lemma GatePair(h: Hash, l: Digest, r: Digest)
    ensures GateNode(h)(l, r) == h(GateManifest.NodeInput(l, r))
  {
    assert Ascii("lin:gate:node:") == GateManifest.NODE_DOM;
  }

  function StudyNode(h: Hash): HashTrees.Combine
  {
    (l: Digest, r: Digest) => h(Ascii("lin:study:v1:node") + (l + r))
  }

  lemma {:induction false} StudyRoot(h: Hash, leaves: seq<Digest>, k: nat)
    requires |leaves| == Pow2(k)
    ensures HashTrees.IsRoot(StudyNode(h), HashTrees.Promoted, leaves, MerkleProof.Root(h, leaves, k))
    decreases k
  {
    hide StudyNode, HashTrees.IsRoot, HashTrees.IsAbove, MerkleProof.Up;
    if k == 0 {
      assert leaves == [leaves[0]];
      HashTrees.RootAlone(StudyNode(h), HashTrees.Promoted, leaves[0]);
    } else {
      var up := MerkleProof.Up(h, leaves);
      StudyRoot(h, up, k - 1);
      StudyAbove(h, leaves);
      HashTrees.RootAbove(StudyNode(h), HashTrees.Promoted, leaves, up, MerkleProof.Root(h, up, k - 1));
    }
  }

  lemma StudyAbove(h: Hash, level: seq<Digest>)
    requires |level| % 2 == 0
    ensures HashTrees.IsAbove(StudyNode(h), HashTrees.Promoted, level, MerkleProof.Up(h, level))
  {
    assert Ascii("lin:study:v1:node") == MerkleProof.NODE_DOM;
  }

  // ---------------------------------------------------------------- RLP

  /** A payload behind its prefix: one byte up to 55 bytes, and otherwise the number of length bytes
      and the length, highest byte first and without leading zeros. */
  ghost predicate Prefixed(b: bytes, base: nat, payload: bytes)
  {
    if |payload| <= 55 then |b| == 1 + |payload| && b[0] == base + |payload| && b[1..] == payload
    else
      var k := |b| - 1 - |payload|;
      && 1 <= k <= 8
      && b[0] == base + 55 + k && b[1] != 0 && FromBE(b[1..1 + k]) == |payload| && b[1 + k..] == payload
  }

  /** Strings count from 0x80, lists from 0xc0, and a byte below 0x80 stands for itself. */
  lemma RlpLayout(x: Rlp.Item)
    requires Rlp.Fits(x)
    ensures match x
            case Str(s) =>
              if |s| == 1 && s[0] < 0x80 then Rlp.Encode(x) == s else Prefixed(Rlp.Encode(x), 0x80, s)
            case List(xs) => Prefixed(Rlp.Encode(x), 0xC0, Rlp.EncodeAll(xs))
  {
    hide Rlp.EncodeAll, Prefixed, Rlp.EncHead;
    match x
    case Str(s) => HeadLayout(false, s);
    case List(xs) => HeadLayout(true, Rlp.EncodeAll(xs));
  }

  lemma HeadLayout(isList: bool, payload: bytes)
    requires |payload| < Rlp.MAX_LEN
    ensures Prefixed(Rlp.EncHead(isList, |payload|) + payload, if isList then 0xC0 else 0x80, payload)
  {
    hide FromBE, MinBE;
    var n := |payload|;
    var b := Rlp.EncHead(isList, n) + payload;
    if n > 55 {
      SmallPowers();
      MinBELength(n, 8);
      MinBERoundTrip(n);
      var len := MinBE(n);
      assert b[1..1 + |len|] == len && b[1 + |len|..] == payload;
    }
  }

  // ---------------------------------------------------------------- images

  /** The opcodes of an image in the order of their numbers, from 0 on. */
  const OPCODES: seq<Vm.VmOp> :=
    [Vm.IPush, Vm.ILoad, Vm.IStore, Vm.IAdd, Vm.ISub, Vm.IMul, Vm.IDiv, Vm.IMod]
    + [Vm.IAnd, Vm.IOr, Vm.IXor, Vm.INot, Vm.INeg, Vm.IShl, Vm.IShr, Vm.IUshr]
    + [Vm.IEq, Vm.INe, Vm.ILt, Vm.IGt, Vm.ILe, Vm.IGe, Vm.ILogNot, Vm.IJump]
    + [Vm.IJumpF, Vm.IJumpFKeep, Vm.IJumpTKeep, Vm.IPop, Vm.ICall, Vm.IRet, Vm.ILoadIdx, Vm.IStoreIdx]
    + [Vm.IArrLen]

  /** An instruction: the number of its opcode and eight bytes of operand. */
  lemma InstructionLayout(i: Vm.Ins)
    requires i.op != Vm.IAbi
    ensures var b := LinImage.EncIns(i);
            && |b| == 9 && b[0] < |OPCODES| && OPCODES[b[0]] == i.op
            && Number(b, 1, 8, if i.a < 0 then i.a + 0x1_0000_0000_0000_0000 else i.a)
  {
    hide LE, FromLE;
    SmallPowers();
    var b := LinImage.EncIns(i);
    AtStart(LE(LinImage.OpCode(i.op), 1), LE(ToU64(i.a), 8));
    AtByte(b, 0, LinImage.OpCode(i.op));
    AtNumber(b, 1, 8, ToU64(i.a));
  }

  /** A function record begins with its name, the numbers of parameters, locals and arrays, and the
      number of instructions. */
  lemma FunctionLayout(n: LinImage.Names, f: LinImage.FnDecl)
    requires LinImage.FnFits(f, n.nStrings, n.nFns) && f.name < 0x1_0000_0000 && |f.code| < 0x1_0000_0000
    ensures var b := LinImage.EncFn(n, f);
            && |b| >= 11 && Number(b, 0, 4, f.name) && b[4] == f.nparams && b[5] == f.nlocals
            && b[6] == |f.arrs| && Number(b, 7, 4, |f.code|)
  {
    hide LE, FromLE, LinImage.FnFits, LinImage.EncHead;
    var b, h := LinImage.EncFn(n, f), LinImage.HeadOf(f);
    var head := LinImage.EncHead(h);
    FnFitsHead(n, f);
    AtStart(head, b[|head|..]);
    HeadLayoutOf(b, h);
  }

  lemma FnFitsHead(n: LinImage.Names, f: LinImage.FnDecl)
    requires LinImage.FnFits(f, n.nStrings, n.nFns)
    ensures f.nparams <= f.nlocals <= 64 && |f.arrs| <= 8
    ensures var head := LinImage.EncHead(LinImage.HeadOf(f)); head <= LinImage.EncFn(n, f)
  {
  }

  lemma HeadLayoutOf(b: bytes, h: LinImage.FnHead)
    requires At(b, 0, LinImage.EncHead(h)) && h.name < 0x1_0000_0000 && h.codeLen < 0x1_0000_0000
    requires h.nparams < 256 && h.nlocals < 256 && h.nArrs < 256
    ensures |b| >= 11 && Number(b, 0, 4, h.name) && b[4] == h.nparams && b[5] == h.nlocals
    ensures b[6] == h.nArrs && Number(b, 7, 4, h.codeLen)
  {
    hide LE, FromLE, At, Number;
    SmallPowers();
    var t2 := LE(h.nArrs, 1) + LE(h.codeLen, 4);
    var t1 := LE(h.nlocals, 1) + t2;
    AtTwo(b, 0, LE(h.name, 4), LE(h.nparams, 1) + t1);
    AtTwo(b, 4, LE(h.nparams, 1), t1);
    AtTwo(b, 5, LE(h.nlocals, 1), t2);
    AtTwo(b, 6, LE(h.nArrs, 1), LE(h.codeLen, 4));
    AtNumber(b, 0, 4, h.name);
    AtByte(b, 4, h.nparams);
    AtByte(b, 5, h.nlocals);
    AtByte(b, 6, h.nArrs);
    AtNumber(b, 7, 4, h.codeLen);
    NumberEnds(b, 7, 4, h.codeLen);
  }

  lemma NumberEnds(b: bytes, at: nat, w: nat, v: nat)
    requires Number(b, at, w, v)
    ensures at + w <= |b|
  {
  }

  /** An image: "LINBC1", version 1, the profile, no flags, the numbers of strings, functions, regions
      and intrinsics, the four sections, and the digest of it all behind the domain. */
  ghost predicate ImageBytes(h: Hash, b: bytes, im: LinImage.Image)
  {
    && |b| >= 57 && b[..6] == Ascii("LINBC1") && b[6] == 1 && b[7] == im.profile && b[8] == 0
    && Number(b, 9, 4, |im.strings|) && Number(b, 13, 4, |im.fns|)
    && Number(b, 17, 4, |im.cells|) && Number(b, 21, 4, |im.abis|)
    && b[25..|b| - 32] == LinImage.EncSections(im)
    && b[|b| - 32..] == h(Ascii("linbc1:img:") + b[..|b| - 32])
  }

  lemma ImageLayout(h: Hash, im: LinImage.Image)
    requires LinImage.ValidImage(im)
    ensures ImageBytes(h, LinImage.Seal(h, im), im)
  {
    hide LE, FromLE, LinImage.EncSections, LinImage.FnFits, LinImage.EncProfile, LinImage.EncCounts;
    var b, body := LinImage.Seal(h, im), LinImage.ImageBody(im);
    var head := LinImage.HeaderOf(im);
    var sections := LinImage.EncSections(im);
    assert Ascii("LINBC1") == LinImage.MAGIC && Ascii("linbc1:img:") == LinImage.DOMAIN;
    AtStart(body, h(LinImage.DOMAIN + body));
    AtTwo(b, 0, LinImage.MAGIC, LinImage.Fields(im));
    AtTwo(b, 6, LinImage.EncHeader(head), sections);
    AtTwo(b, 6, LinImage.EncProfile(im.profile), LinImage.EncCounts(head));
    CountsLayout(b, head);
    assert b[..6] == b[0..6];
    assert b[..|b| - 32] == body;
    assert b[25..|b| - 32] == b[25..25 + |sections|];
  }

  lemma CountsLayout(b: bytes, h: LinImage.Header)
    requires At(b, 6, LinImage.EncProfile(h.profile))
    requires At(b, 6 + |LinImage.EncProfile(h.profile)|, LinImage.EncCounts(h))
    requires LinImage.HeaderFits(h)
    ensures |LinImage.EncProfile(h.profile)| == 3 && |LinImage.EncCounts(h)| == 16
    ensures |b| >= 25 && b[6] == 1 && b[7] == h.profile && b[8] == 0
    ensures Number(b, 9, 4, h.nStrings) && Number(b, 13, 4, h.nFns)
    ensures Number(b, 17, 4, h.nRegions) && Number(b, 21, 4, h.nAbis)
  {
    hide LE, FromLE, At, Number;
    SmallPowers();
    AtTwo(b, 6, LE(1, 1), LE(h.profile, 1) + LE(0, 1));
    AtTwo(b, 7, LE(h.profile, 1), LE(0, 1));
    AtByte(b, 6, 1);
    AtByte(b, 7, h.profile);
    AtByte(b, 8, 0);
    var t2 := LE(h.nRegions, 4) + LE(h.nAbis, 4);
    AtTwo(b, 9, LE(h.nStrings, 4), LE(h.nFns, 4) + t2);
    AtTwo(b, 13, LE(h.nFns, 4), t2);
    AtTwo(b, 17, LE(h.nRegions, 4), LE(h.nAbis, 4));
    AtNumber(b, 9, 4, h.nStrings);
    AtNumber(b, 13, 4, h.nFns);
    AtNumber(b, 17, 4, h.nRegions);
    AtNumber(b, 21, 4, h.nAbis);
    NumberEnds(b, 21, 4, h.nAbis);
  }
}
