/** The store as a state machine over values: what is on disk, what is in memory, and what
    every call, crash and reopening does to them. */
module StoreSpec {
  import opened Bytes
  import opened Seqs
  import opened MemTable
  import opened StoreMerkle
  import opened Wal

  datatype Option<T> = None | Some(value: T)

  datatype Result =
    | OK | INVALID_ARG | NOT_FOUND | LIMIT_KEY | LIMIT_VAL | LIMIT_WAL | IO | CORRUPT | CHK_MISMATCH

  /** `synced` counts the leading bytes of the log file that a crash cannot take away. */
  datatype Disk = Disk(wal: bytes, synced: nat, chk: Option<bytes>)

  datatype Memory = Memory(table: Table, staged: seq<Op>, frameCount: nat, walSize: nat)

  // ---------------------------------------------------------------- put, del, get

  function PutResult(key: bytes, val: bytes): Result
  {
    if |key| == 0 then INVALID_ARG
    else if |key| > MAX_KEY_LEN then LIMIT_KEY
    else if |val| > MAX_VAL_LEN then LIMIT_VAL
    else OK
  }

  function DelResult(m: Memory, key: bytes): Result
  {
    if |key| == 0 then INVALID_ARG
    else if |key| > MAX_KEY_LEN then LIMIT_KEY
    else if key !in m.table then NOT_FOUND
    else OK
  }

  /** Stages an operation: the table runs ahead of the log. */
  function Stage(m: Memory, op: Op): Memory
  {
    m.(table := ApplyOp(m.table, op), staged := m.staged + [op])
  }

  // ---------------------------------------------------------------- commit

  /** A write that stopped early: the frame it belonged to and the bytes that got through. */
  datatype WriteFault = WriteFault(frame: nat, wrote: nat)

  function Overwrite(file: bytes, at: nat, data: bytes): bytes
    requires at <= |file|
  {
    file[..at] + data + (if at + |data| < |file| then file[at + |data|..] else [])
  }

  predicate Faulty(h: Hash, staged: seq<Op>, fault: Option<WriteFault>)
  {
    fault.Some? && fault.value.frame < |staged| && fault.value.wrote < |Frame(h, staged[fault.value.frame])|
  }

  /** The bytes that reach the file when a batch is interrupted. */
  function Torn(h: Hash, staged: seq<Op>, f: WriteFault): bytes
    requires f.frame < |staged| && f.wrote < |Frame(h, staged[f.frame])|
  {
    Log(h, staged[..f.frame]) + Frame(h, staged[f.frame])[..f.wrote]
  }

  function CommitResult(h: Hash, m: Memory, fault: Option<WriteFault>): Result
  {
    if m.staged == [] then OK
    else if m.walSize + |Log(h, m.staged)| > MAX_WAL_SIZE then LIMIT_WAL
    else if Faulty(h, m.staged, fault) then IO
    else OK
  }

  function CommitDisk(h: Hash, d: Disk, m: Memory, fault: Option<WriteFault>): Disk
    requires m.walSize <= |d.wal|
  {
    if m.staged == [] || m.walSize + |Log(h, m.staged)| > MAX_WAL_SIZE then d
    else if Faulty(h, m.staged, fault) then
      d.(wal := Overwrite(d.wal, m.walSize, Torn(h, m.staged, fault.value)))
    else
      var wal := Overwrite(d.wal, m.walSize, Log(h, m.staged));
      d.(wal := wal, synced := |wal|)
  }

  function CommitMemory(h: Hash, m: Memory, fault: Option<WriteFault>): Memory
  {
    if CommitResult(h, m, fault) != OK then m
    else m.(staged := [], frameCount := m.frameCount + |m.staged|, walSize := m.walSize + |Log(h, m.staged)|)
  }

  // ---------------------------------------------------------------- checkpoints

  const CHK_MAGIC: bytes := [0x53, 0x54, 0x52, 0x43, 0x48, 0x4b]  // "STRCHK"

  function ChkFields(frames: nat, root: Digest): (r: bytes)
    ensures |r| == 48
  {
    CHK_MAGIC + (LE(1, 2) + (LE(frames, 8) + root))
  }

  function ChkFile(h: Hash, frames: nat, root: Digest): bytes
  {
    ChkFields(frames, root) + h(ChkFields(frames, root))
  }

  /** A checkpoint file that reopening takes seriously. */
  predicate ChkAccepted(h: Hash, raw: bytes)
  {
    && |raw| == 80 && raw[..6] == CHK_MAGIC && FromLE(raw[6..8]) == 1
    && h(raw[..48]) == raw[48..80]
  }

  /** Reopening fails exactly on an accepted checkpoint of this frame count with another root. */
  function ChkResult(h: Hash, chk: Option<bytes>, frames: nat, root: Digest): Result
  {
    if chk.Some? && ChkAccepted(h, chk.value) && FromLE(chk.value[8..16]) == frames
       && chk.value[16..48] != root
    then CHK_MISMATCH else OK
  }

  lemma ChkParts(h: Hash, frames: nat, root: Digest)
    requires frames < 0x1_0000_0000_0000_0000
    ensures var raw := ChkFile(h, frames, root);
            ChkAccepted(h, raw) && FromLE(raw[8..16]) == frames && raw[16..48] == root
  {
    SmallPowers();
    LERoundTrip(1, 2);
    LERoundTrip(frames, 8);
    var f := ChkFields(frames, root);
    ConcatParts(f, h(f));
    FourFields(CHK_MAGIC, LE(1, 2), LE(frames, 8), root, h(f));
  }

  ghost function CheckpointDisk(h: Hash, d: Disk, m: Memory, walSynced: bool, renamed: bool): Disk
  {
    if !walSynced then d
    else if !renamed then d.(synced := |d.wal|)
    else d.(synced := |d.wal|, chk := Some(ChkFile(h, m.frameCount, MapRoot(h, m.table))))
  }

  function CloseDisk(d: Disk, walSynced: bool): Disk
  {
    if walSynced then d.(synced := |d.wal|) else d
  }

  // ---------------------------------------------------------------- open

  /** What the file system does while a store is opened: how much of a new header is
      written, and whether the syncs succeed. */
  datatype OpenIo = OpenIo(headerWritten: nat, headerSynced: bool, tailSynced: bool)

  function OpenTrouble(wal: bytes, io: OpenIo): bool
  {
    wal == [] && (io.headerWritten < |HEADER| || !io.headerSynced)
  }

  function Min(a: nat, b: nat): nat { if a < b then a else b }

  /** The log recovered from a file. */
  ghost function Recovered(h: Hash, wal: bytes): seq<Op>
  {
    if HasHeader(wal) then DecodeWal(h, wal, |HEADER|) else []
  }

  ghost function OpenDisk(h: Hash, d: Disk, io: OpenIo): Disk
  {
    if d.wal == [] then
      if OpenTrouble(d.wal, io) then d.(wal := HEADER[..Min(io.headerWritten, |HEADER|)], synced := 0)
      else d.(wal := HEADER, synced := |HEADER|)
    else if !HasHeader(d.wal) then d
    else
      var end := Min(|HEADER + Log(h, Recovered(h, d.wal))|, |d.wal|);
      d.(wal := d.wal[..end], synced := if io.tailSynced then end else Min(d.synced, end))
  }

  ghost function OpenResult(h: Hash, d: Disk, io: OpenIo): Result
  {
    if OpenTrouble(d.wal, io) then IO
    else if d.wal != [] && !HasHeader(d.wal) then CORRUPT
    else
      var log := Recovered(h, d.wal);
      ChkResult(h, d.chk, |log|, MapRoot(h, Replay(map[], log)))
  }

  ghost function OpenMemory(h: Hash, d: Disk): Memory
  {
    var log := Recovered(h, d.wal);
    Memory(Replay(map[], log), [], |log|, |HEADER + Log(h, log)|)
  }
}
