/** The write-ahead log: frames, their concatenation, and what a byte string decodes to. */
module Wal {
  import opened Bytes
  import opened Seqs
  import opened MemTable
  import opened PrefixCodes

  const MAX_KEY_LEN: nat := 1024
  const MAX_VAL_LEN: nat := 1024 * 1024
  const MAX_WAL_SIZE: nat := 1024 * 1024 * 1024
  const OP_PUT: byte := 1
  const OP_DEL: byte := 2

  /** "STRW", version 1, page size 4096, reserved 0. */
  const HEADER: bytes := [0x53, 0x54, 0x52, 0x57, 1, 0, 0, 0x10, 0, 0, 0, 0]

  datatype Op = Put(key: bytes, val: bytes) | Del(key: bytes)
  {
    function Code(): byte { if Put? then OP_PUT else OP_DEL }
    function Payload(): bytes { if Put? then val else [] }
  }

  /** What `store_put` and `store_del` let through. */
  predicate ValidOp(op: Op)
  {
    1 <= |op.key| <= MAX_KEY_LEN && |op.Payload()| <= MAX_VAL_LEN
  }

  predicate ValidOps(ops: seq<Op>)
  {
    forall i :: 0 <= i < |ops| ==> ValidOp(ops[i])
  }

  function ApplyOp(m: Table, op: Op): Table
  {
    if op.Put? then m[op.key := op.val] else m - {op.key}
  }

  function Replay(m: Table, ops: seq<Op>): Table
  {
    if ops == [] then m else ApplyOp(Replay(m, ops[..|ops| - 1]), ops[|ops| - 1])
  }

  lemma {:induction false} ReplayConcat(m: Table, a: seq<Op>, b: seq<Op>)
    ensures Replay(m, a + b) == Replay(Replay(m, a), b)
  {
    if b == [] {
      assert a + b == a;
    } else {
      var n := |b| - 1;
      ReplayConcat(m, a, b[..n]);
      assert (a + b)[..|a + b| - 1] == a + b[..n];
    }
  }

  lemma ReplaySnoc(m: Table, ops: seq<Op>, op: Op)
    ensures Replay(m, ops + [op]) == ApplyOp(Replay(m, ops), op)
  {
    assert (ops + [op])[..|ops|] == ops;
  }

  // ---------------------------------------------------------------- frames

  /** Operation code, key length, value length, key and value: the checksummed part. */
  function Body(op: Op): (r: bytes)
    ensures |r| == 7 + |op.key| + |op.Payload()|
  {
    [op.Code()] + (LE(|op.key|, 2) + (LE(|op.Payload()|, 4) + (op.key + op.Payload())))
  }

  function FrameLen(op: Op): nat
  {
    39 + |op.key| + |op.Payload()|
  }

  function Frame(h: Hash, op: Op): (r: bytes)
    ensures |r| == 4 + FrameLen(op)
  {
    LE(FrameLen(op), 4) + (Body(op) + h(Body(op)))
  }

  lemma BodyInjective(a: Op, b: Op)
    requires ValidOp(a) && ValidOp(b) && Body(a) == Body(b)
    ensures a == b
  {
    SmallPowers();
    SplitConcat([a.Code()], Body(a)[1..], [b.Code()], Body(b)[1..]);
    SplitConcat(LE(|a.key|, 2), LE(|a.Payload()|, 4) + (a.key + a.Payload()),
                LE(|b.key|, 2), LE(|b.Payload()|, 4) + (b.key + b.Payload()));
    LEInjective(|a.key|, |b.key|, 2);
    SplitConcat(LE(|a.Payload()|, 4), a.key + a.Payload(), LE(|b.Payload()|, 4), b.key + b.Payload());
    SplitConcat(a.key, a.Payload(), b.key, b.Payload());
  }

  /** The frame encoding as a code over valid operations. */
  function FrameCode(h: Hash): Code<Op>
  {
    Code((op: Op) => Frame(h, op), (op: Op) => ValidOp(op))
  }

  /** No frame is the beginning of another one. */
  lemma FramesPrefixFree(h: Hash)
    ensures PrefixFree(FrameCode(h))
  {
    var c := FrameCode(h);
    forall a, b | Begins(c, a, b) ensures a == b {
      SmallPowers();
      SplitConcat(LE(FrameLen(a), 4), Body(a) + h(Body(a)),
                  LE(FrameLen(b), 4), (Body(b) + h(Body(b)))[..|Body(a) + h(Body(a))|]);
      LEInjective(FrameLen(a), FrameLen(b), 4);
      SplitConcat(Body(a), h(Body(a)), Body(b), h(Body(b)));
      BodyInjective(a, b);
    }
    forall a | c.valid(a) ensures c.enc(a) != [] {
    }
  }

  /** The frames of a list of operations, one after the other. */
  function Log(h: Hash, ops: seq<Op>): bytes
  {
    Concat(FrameCode(h), ops)
  }

  lemma LogSnoc(h: Hash, ops: seq<Op>, op: Op)
    ensures Log(h, ops + [op]) == Log(h, ops) + Frame(h, op)
  {
    ConcatSnoc(FrameCode(h), ops, op);
  }

  lemma LogPrefix(h: Hash, ops: seq<Op>, i: nat)
    requires i < |ops|
    ensures Log(h, ops[..i + 1]) == Log(h, ops[..i]) + Frame(h, ops[i])
  {
    assert ops[..i + 1] == ops[..i] + [ops[i]];
    LogSnoc(h, ops[..i], ops[i]);
  }

  // ---------------------------------------------------------------- reading one frame

  /** The length field of the frame at `off`. */
  function LengthField(d: bytes, off: nat): nat
    requires off + 4 <= |d|
  {
    FromLE(d[off..off + 4])
  }

  /** Everything a reader may check about the bytes at `off`. */
  predicate GoodFrame(h: Hash, d: bytes, off: nat)
  {
    && off + 4 <= |d|
    && var n := LengthField(d, off);
    && 39 <= n && off + 4 + n <= |d|
    && var b := d[off + 4..off + 4 + n];
    && GoodBody(h, b)
  }

  predicate GoodBody(h: Hash, b: bytes)
  {
    && 39 <= |b|
    && var klen, vlen := FromLE(b[1..3]), FromLE(b[3..7]);
    && |b| == 39 + klen + vlen
    && 1 <= klen <= MAX_KEY_LEN && vlen <= MAX_VAL_LEN
    && b[0] in {OP_PUT, OP_DEL} && (b[0] == OP_DEL ==> vlen == 0)
    && h(b[..7 + klen + vlen]) == b[7 + klen + vlen..]
  }

  function BodyOp(h: Hash, b: bytes): (op: Op)
    requires GoodBody(h, b)
  {
    var klen, vlen := FromLE(b[1..3]), FromLE(b[3..7]);
    if b[0] == OP_PUT then Put(b[7..7 + klen], b[7 + klen..7 + klen + vlen]) else Del(b[7..7 + klen])
  }

  /** A body that passes every check is the body of the operation read from it. */
  lemma BodyComplete(h: Hash, b: bytes)
    requires GoodBody(h, b)
    ensures var op := BodyOp(h, b); ValidOp(op) && b == Body(op) + h(Body(op))
  {
    hide FromLE, LE;
    var klen, vlen := FromLE(b[1..3]), FromLE(b[3..7]);
    var op := BodyOp(h, b);
    FromLERoundTrip(b[1..3]);
    FromLERoundTrip(b[3..7]);
    var n := 7 + klen + vlen;
    assert op.Payload() == b[7 + klen..n];
    JoinBody(b, op, klen, n);
    TakeDrop(b, n);
  }

  lemma JoinBody(b: bytes, op: Op, klen: nat, n: nat)
    requires 7 <= 7 + klen <= n <= |b| && op.Code() == b[0]
    requires op.key == b[7..7 + klen] && op.Payload() == b[7 + klen..n]
    requires LE(|op.key|, 2) == b[1..3] && LE(|op.Payload()|, 4) == b[3..7]
    ensures b[..n] == Body(op)
  {
    hide LE;
    FiveParts(b, 1, 3, 7, 7 + klen, n);
    assert b[..1] == [b[0]];
  }

  /** The body of a valid operation passes every check and is read back. */
  lemma BodyReadBack(h: Hash, op: Op)
    requires ValidOp(op)
    ensures var b := Body(op) + h(Body(op)); GoodBody(h, b) && BodyOp(h, b) == op
  {
    hide FromLE, LE, Body, Pow256;
    SmallPowers();
    LERoundTrip(|op.key|, 2);
    LERoundTrip(|op.Payload()|, 4);
    BodySlices(op, h(Body(op)));
  }

  /** The fields of a body, read by position with its digest behind it. */
  lemma BodySlices(op: Op, sum: bytes)
    ensures var b, n := Body(op) + sum, |Body(op)|;
            && b[0] == op.Code() && b[1..3] == LE(|op.key|, 2) && b[3..7] == LE(|op.Payload()|, 4)
            && b[7..7 + |op.key|] == op.key && b[7 + |op.key|..n] == op.Payload()
            && b[..n] == Body(op) && b[n..] == sum
  {
    hide LE, Body;
    var body := Body(op);
    var b := body + sum;
    BodyParts(op);
    ConcatParts(body, sum);
    SubSlice(b, 0, |body|, 1, 3);
    SubSlice(b, 0, |body|, 3, 7);
    SubSlice(b, 0, |body|, 7, 7 + |op.key|);
    SubSlice(b, 0, |body|, 7 + |op.key|, |body|);
    assert body[7 + |op.key|..] == body[7 + |op.key|..|body|];
  }

  lemma BodyParts(op: Op)
    ensures var body := Body(op);
            && body[0] == op.Code() && body[1..3] == LE(|op.key|, 2) && body[3..7] == LE(|op.Payload()|, 4)
            && body[7..7 + |op.key|] == op.key && body[7 + |op.key|..] == op.Payload()
  {
    hide LE;
  }

  function FrameOp(h: Hash, d: bytes, off: nat): Op
    requires GoodFrame(h, d, off)
  {
    BodyOp(h, d[off + 4..off + 4 + LengthField(d, off)])
  }

  lemma GoodFrameComplete(h: Hash, d: bytes, off: nat)
    requires GoodFrame(h, d, off)
    ensures WordAt(FrameCode(h), d, off, FrameOp(h, d, off))
    ensures FrameLen(FrameOp(h, d, off)) == LengthField(d, off)
  {
    var size, b := d[off..off + 4], d[off + 4..off + 4 + LengthField(d, off)];
    BodyIsFrame(h, size, b);
    FrameOfSlices(h, d, off, BodyOp(h, b), size, b);
  }

  lemma FrameOfSlices(h: Hash, d: bytes, off: nat, op: Op, size: bytes, b: bytes)
    requires off + 4 + |b| <= |d| && d[off..off + 4] == size && d[off + 4..off + 4 + |b|] == b
    requires ValidOp(op) && Frame(h, op) == size + b
    ensures WordAt(FrameCode(h), d, off, op)
  {
    JoinSlices(d, off, off + 4, off + 4 + |b|);
    PrefixIsSlice(size + b, d, off);
  }

  lemma BodyIsFrame(h: Hash, size: bytes, b: bytes)
    requires |size| == 4 && FromLE(size) == |b| && GoodBody(h, b)
    ensures var op := BodyOp(h, b); ValidOp(op) && FrameLen(op) == |b| && Frame(h, op) == size + b
  {
    BodyComplete(h, b);
    FromLERoundTrip(size);
  }

  lemma FrameIsBody(h: Hash, op: Op, size: bytes, b: bytes)
    requires ValidOp(op) && size == LE(FrameLen(op), 4) && b == Body(op) + h(Body(op))
    ensures Frame(h, op) == size + b && FromLE(size) == |b| == FrameLen(op)
    ensures GoodBody(h, b) && BodyOp(h, b) == op
  {
    SmallPowers();
    LERoundTrip(FrameLen(op), 4);
    BodyReadBack(h, op);
  }

  lemma GoodFrameOf(h: Hash, d: bytes, off: nat, b: bytes)
    requires off + 4 + |b| <= |d| && d[off + 4..off + 4 + |b|] == b
    requires FromLE(d[off..off + 4]) == |b| && GoodBody(h, b)
    ensures GoodFrame(h, d, off) && FrameOp(h, d, off) == BodyOp(h, b)
  {
  }

  lemma GoodFrameSound(h: Hash, d: bytes, off: nat, op: Op)
    requires WordAt(FrameCode(h), d, off, op)
    ensures GoodFrame(h, d, off) && FrameOp(h, d, off) == op
  {
    var b := FrameSlices(h, d, off, op);
    GoodFrameOf(h, d, off, b);
  }

  lemma FrameSlices(h: Hash, d: bytes, off: nat, op: Op) returns (b: bytes)
    requires WordAt(FrameCode(h), d, off, op)
    ensures off + 4 + |b| <= |d| && d[off + 4..off + 4 + |b|] == b
    ensures FromLE(d[off..off + 4]) == |b| && GoodBody(h, b) && BodyOp(h, b) == op
  {
    hide GoodBody, BodyOp, Body, FromLE, LE;
    var size := LE(FrameLen(op), 4);
    b := Body(op) + h(Body(op));
    FrameIsBody(h, op, size, b);
    PrefixIsSlice(size + b, d, off);
    SliceParts(d, off, size, b);
  }

  lemma SliceParts(d: bytes, off: nat, a: bytes, b: bytes)
    requires off + |a + b| <= |d| && d[off..off + |a + b|] == a + b
    ensures d[off..off + |a|] == a && d[off + |a|..off + |a| + |b|] == b
  {
    JoinSlices(d, off, off + |a|, off + |a + b|);
    SplitConcat(d[off..off + |a|], d[off + |a|..off + |a + b|], a, b);
  }

  /** The field checks decide whether a frame stands at `off`. */
  lemma GoodFrameDecides(h: Hash, d: bytes, off: nat)
    ensures GoodFrame(h, d, off) <==> SomeWordAt(FrameCode(h), d, off)
  {
    if GoodFrame(h, d, off) { GoodFrameComplete(h, d, off); }
    if SomeWordAt(FrameCode(h), d, off) {
      GoodFrameSound(h, d, off, ItemAt(FrameCode(h), d, off));
    }
  }

  // ---------------------------------------------------------------- logs

  ghost function DecodeWal(h: Hash, d: bytes, off: nat): seq<Op>
    requires off <= |d|
  {
    FramesPrefixFree(h);
    Decode(FrameCode(h), d, off)
  }

  lemma DecodeWalWord(h: Hash, d: bytes, off: nat, op: Op)
    requires WordAt(FrameCode(h), d, off, op)
    ensures FrameRead(h, d, off, op, off + 4 + FrameLen(op))
  {
    FramesPrefixFree(h);
    DecodeStep(FrameCode(h), d, off, op);
  }

  lemma DecodeWalStop(h: Hash, d: bytes, off: nat)
    requires off <= |d| && !SomeWordAt(FrameCode(h), d, off)
    ensures NoFrame(h, d, off)
  {
    FramesPrefixFree(h);
  }

  /** `op` and `next` are the right outcome of reading one frame at `off`. */
  ghost predicate FrameRead(h: Hash, d: bytes, off: nat, op: Op, next: nat)
  {
    && off <= next <= |d| && next == off + 4 + FrameLen(op)
    && DecodeWal(h, d, off) == [op] + DecodeWal(h, d, next)
  }

  ghost predicate NoFrame(h: Hash, d: bytes, off: nat)
  {
    off <= |d| && DecodeWal(h, d, off) == []
  }

  lemma ReadMeaning(h: Hash, d: bytes, off: nat)
    requires off <= |d|
    ensures !GoodFrame(h, d, off) ==> NoFrame(h, d, off)
    ensures GoodFrame(h, d, off) ==> FrameRead(h, d, off, FrameOp(h, d, off), off + 4 + LengthField(d, off))
  {
    GoodFrameDecides(h, d, off);
    if GoodFrame(h, d, off) {
      GoodFrameComplete(h, d, off);
      DecodeWalWord(h, d, off, FrameOp(h, d, off));
    } else {
      DecodeWalStop(h, d, off);
    }
  }

  lemma ShiftOne(all: seq<Op>, log: seq<Op>, op: Op, rest: seq<Op>)
    requires all == log + ([op] + rest)
    ensures all == (log + [op]) + rest
  {
  }

  lemma RecordFrame(h: Hash, d: bytes, off: nat, op: Op, next: nat, log: seq<Op>, all: seq<Op>)
    requires FrameRead(h, d, off, op, next) && all == log + DecodeWal(h, d, off)
    ensures all == (log + [op]) + DecodeWal(h, d, next)
    ensures Replay(map[], log + [op]) == ApplyOp(Replay(map[], log), op)
    ensures |Log(h, log + [op])| == |Log(h, log)| + (next - off)
  {
    ShiftOne(all, log, op, DecodeWal(h, d, next));
    ReplaySnoc(map[], log, op);
    LogSnoc(h, log, op);
  }

  lemma NoMoreFrames(h: Hash, d: bytes)
    ensures NoFrame(h, d, |d|)
  {
    ReadMeaning(h, d, |d|);
  }

  ghost predicate HasHeader(d: bytes)
  {
    HEADER <= d
  }
}
