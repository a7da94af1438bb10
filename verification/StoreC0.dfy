/** The store itself: recovery, staging, commit and checkpoint as code that changes state. */
module StoreC0 {
  import opened Bytes
  import opened Seqs
  import opened MemTable
  import opened StoreMerkle
  import opened Wal
  import opened StoreSpec

  /** The log file and the checkpoint file of a store directory. */
  class Files {
    var wal: bytes
    var synced: nat
    var chk: Option<bytes>

    function Disk(): Disk
      reads this
    {
      StoreSpec.Disk.Disk(wal, synced, chk)
    }

    constructor ()
      ensures Disk() == StoreSpec.Disk.Disk([], 0, None)
    {
      wal, synced, chk := [], 0, None;
    }

    /** A positional write, of which only `count` bytes may get through. */
    method PWrite(data: bytes, at: nat, count: nat) returns (written: nat)
      requires at <= |wal|
      modifies `wal
      ensures written == Min(count, |data|)
      ensures wal == Overwrite(old(wal), at, data[..written])
    {
      written := if count < |data| then count else |data|;
      wal := Overwrite(wal, at, data[..written]);
    }
  }

  /** What the length field and the body behind it decide. */
  lemma FrameMeaning(h: Hash, data: bytes, off: nat)
    requires off < |data|
    ensures |data| - off < 4 ==> NoFrame(h, data, off)
    ensures |data| - off >= 4 ==>
      var n := FromLE(data[off..off + 4]);
      && (n < 39 || n > MAX_KEY_LEN + MAX_VAL_LEN + 39 || off + 4 + n > |data| ==> NoFrame(h, data, off))
      && (39 <= n && off + 4 + n <= |data| ==>
            var buf := data[off + 4..off + 4 + n];
            if GoodBody(h, buf) then FrameRead(h, data, off, BodyOp(h, buf), off + 4 + n) else NoFrame(h, data, off))
  {
    hide NoFrame, FrameRead;
    ReadMeaning(h, data, off);
  }

  /** The reader of the recovery loop, with its checks in the order of the C code. */
  method ReadFrame(h: Hash, data: bytes, offset: nat) returns (r: Option<Op>, next: nat)
    requires offset < |data|
    ensures match r case None => NoFrame(h, data, offset) case Some(op) => FrameRead(h, data, offset, op, next)
  {
    hide GoodBody, BodyOp, NoFrame, FrameRead;
    FrameMeaning(h, data, offset);
    if |data| - offset < 4 { return None, offset; }
    var frameLen := FromLE(data[offset..offset + 4]);
    if frameLen < 39 || frameLen > MAX_KEY_LEN + MAX_VAL_LEN + 39 { return None, offset; }
    if |data| - (offset + 4) < frameLen { return None, offset; }
    var buf := data[offset + 4..offset + 4 + frameLen];
    r := CheckBody(h, buf);
    return r, if r.Some? then offset + 4 + frameLen else offset;
  }

  /** The checks on a complete frame body. */
  method CheckBody(h: Hash, buf: bytes) returns (r: Option<Op>)
    requires 39 <= |buf| <= MAX_KEY_LEN + MAX_VAL_LEN + 39
    ensures r.Some? <==> GoodBody(h, buf)
    ensures r.Some? ==> r.value == BodyOp(h, buf)
  {
    var op, klen, vlen := buf[0], FromLE(buf[1..3]), FromLE(buf[3..7]);
    // The C sum is computed in 32 bits and may wrap around.
    if (7 + klen + vlen + 32) % 0x1_0000_0000 != |buf| { return None; }
    if op != OP_PUT && op != OP_DEL { return None; }
    if klen == 0 || klen > MAX_KEY_LEN || vlen > MAX_VAL_LEN { return None; }
    if op == OP_DEL && vlen != 0 { return None; }
    var key, val := buf[7..7 + klen], buf[7 + klen..7 + klen + vlen];
    if h(buf[..7 + klen + vlen]) != buf[7 + klen + vlen..] { return None; }
    return Some(if op == OP_PUT then Put(key, val) else Del(key));
  }

  lemma LEDecides(b: bytes, v: nat)
    requires v < Pow256(|b|)
    ensures FromLE(b) == v <==> b == LE(v, |b|)
  {
    FromLERoundTrip(b);
    LERoundTrip(v, |b|);
  }

  lemma HeaderLiterals()
    ensures HEADER == HEADER[..4] + (LE(1, 2) + (LE(4096, 4) + LE(0, 2)))
  {
    assert LE(1, 2) == [1, 0] && LE(4096, 4) == [0, 0x10, 0, 0] && LE(0, 2) == [0, 0];
  }

  /** The field tests of the C code accept exactly the one header. */
  lemma HeaderFields(d: bytes)
    requires |d| >= 12
    ensures HasHeader(d) <==>
              d[..4] == HEADER[..4] && FromLE(d[4..6]) == 1 && FromLE(d[6..10]) == 4096 && FromLE(d[10..12]) == 0
  {
    hide FromLE, LE, Pow256;
    SmallPowers();
    LEDecides(d[4..6], 1);
    LEDecides(d[6..10], 4096);
    LEDecides(d[10..12], 0);
    HeaderLiterals();
    assert d[..12] == d[..4] + (d[4..6] + (d[6..10] + d[10..12]));
    if d[..12] == HEADER {
      SplitConcat(d[..4], d[4..6] + (d[6..10] + d[10..12]), HEADER[..4], LE(1, 2) + (LE(4096, 4) + LE(0, 2)));
      SplitConcat(d[4..6], d[6..10] + d[10..12], LE(1, 2), LE(4096, 4) + LE(0, 2));
      SplitConcat(d[6..10], d[10..12], LE(4096, 4), LE(0, 2));
    }
  }

  lemma FreshMemory(h: Hash, d: Disk)
    requires d.wal == []
    ensures OpenMemory(h, d) == Memory(map[], [], 0, |HEADER|)
  {
    assert HEADER + Log(h, []) == HEADER;
  }

  lemma OverwriteReaches(file: bytes, at: nat, data: bytes)
    requires at <= |file|
    ensures |Overwrite(file, at, data)| >= at + |data|
  {
  }

  class Store {
    const h: Hash
    const files: Files
    const memtable: MemTable
    var staged: seq<Op>
    var frameCount: nat
    var walSize: nat

    ghost predicate Valid()
      reads this, files, memtable
    {
      && memtable.Valid()
      && walSize <= |files.wal|
    }

    ghost function Memory(): Memory
      reads this, memtable
    {
      StoreSpec.Memory.Memory(Contents(memtable.entries), staged, frameCount, walSize)
    }

    constructor (h: Hash, files: Files)
      ensures this.h == h && this.files == files && fresh(memtable)
      ensures memtable.Valid() && memtable.entries == [] && staged == [] && frameCount == 0 && walSize == 0
    {
      this.h, this.files := h, files;
      memtable := new MemTable();
      staged, frameCount, walSize := [], 0, 0;
    }

    /** A new file gets its header; a short or unsynced write is an I/O error. */
    method WriteHeader(io: OpenIo) returns (res: Result)
      requires files.wal == []
      modifies files`wal, files`synced
      ensures res == if OpenTrouble([], io) then IO else OK
      ensures files.Disk() == OpenDisk(h, old(files.Disk()), io)
    {
      var n := files.PWrite(HEADER, 0, io.headerWritten);
      assert files.wal == HEADER[..n];
      if n != 12 || !io.headerSynced {
        files.synced := 0;
        return IO;
      }
      files.synced := 12;
      return OK;
    }

    /** The recovery loop: replays the frames of `data` and stops at the first bad one. */
    method ReplayFrames(data: bytes)
      requires memtable.Valid() && memtable.entries == [] && |data| >= 12
      modifies this, memtable
      ensures memtable.Valid() && staged == old(staged)
      ensures var log := DecodeWal(h, data, 12);
              && Contents(memtable.entries) == Replay(map[], log)
              && frameCount == |log| && walSize == 12 + |Log(h, log)| <= |data|
    {
      var offset, validFrames := 12, 0;
      ghost var log: seq<Op> := [];
      ghost var all := DecodeWal(h, data, 12);
      assert all == log + DecodeWal(h, data, offset);
      while offset < |data|
        invariant 12 <= offset <= |data| && staged == old(staged)
        invariant memtable.Valid()
        invariant all == log + DecodeWal(h, data, offset)
        invariant Contents(memtable.entries) == Replay(map[], log)
        invariant validFrames == |log| && offset == 12 + |Log(h, log)|
        decreases |data| - offset
      {
        var r, next := ReadFrame(h, data, offset);
        if r.None? { break; }
        RecordFrame(h, data, offset, r.value, next, log, all);
        match r.value {
          case Put(key, val) => memtable.Put(key, val);
          case Del(key) => var _ := memtable.Del(key);
        }
        log := log + [r.value];
        offset, validFrames := next, validFrames + 1;
      }
      if offset == |data| { NoMoreFrames(h, data); }
      assert log == all;
      walSize, frameCount := offset, validFrames;
    }

    method Recover(io: OpenIo) returns (res: Result)
      requires memtable.Valid() && memtable.entries == [] && staged == []
      modifies this, files, memtable
      ensures memtable.Valid() && files.Disk() == OpenDisk(h, old(files.Disk()), io)
      ensures res == if OpenTrouble(old(files.wal), io) then IO
                     else if old(files.wal) != [] && !HasHeader(old(files.wal)) then CORRUPT else OK
      ensures res == OK ==> Valid() && Memory() == OpenMemory(h, old(files.Disk()))
    {
      hide FromLE, Replay, Log, DecodeWal;
      var data := files.wal;
      if |data| == 0 {
        FreshMemory(h, files.Disk());
        res := WriteHeader(io);
        walSize, frameCount := 12, 0;
        return;
      }
      if |data| < 12 { return CORRUPT; }
      HeaderFields(data);
      if data[..4] != HEADER[..4] || FromLE(data[4..6]) != 1
         || FromLE(data[6..10]) != 4096 || FromLE(data[10..12]) != 0 {
        return CORRUPT;
      }
      ReplayFrames(data);
      files.wal := data[..walSize];
      files.synced := if io.tailSynced then walSize else if files.synced < walSize then files.synced else walSize;
      return OK;
    }

    /** The answer of the checkpoint file to a freshly recovered store. */
    method VerifyCheckpoint() returns (res: Result)
      requires Valid()
      ensures res == ChkResult(h, files.chk, frameCount, MapRoot(h, Contents(memtable.entries)))
    {
      if files.chk.None? { return OK; }
      var raw := files.chk.value;
      if |raw| != 80 { return OK; }
      if raw[..6] != CHK_MAGIC { return OK; }
      if FromLE(raw[6..8]) != 1 { return OK; }
      var frames := FromLE(raw[8..16]);
      if h(raw[..48]) != raw[48..80] { return OK; }
      if frames > frameCount { return OK; }
      if frames == frameCount {
        var root := MerkleRoot();
        if root != raw[16..48] { return CHK_MISMATCH; }
      }
      return OK;
    }

    method MerkleRoot() returns (root: Digest)
      requires Valid()
      ensures root == MapRoot(h, Contents(memtable.entries))
    {
      root := ComputeRoot(h, memtable.entries);
      RootOfContents(h, memtable.entries);
    }

    method Put(key: bytes, val: bytes) returns (res: Result)
      requires Valid()
      modifies this, memtable
      ensures Valid()
      ensures res == PutResult(key, val)
      ensures Memory() == if res == OK then Stage(old(Memory()), Op.Put(key, val)) else old(Memory())
    {
      if |key| == 0 { return INVALID_ARG; }
      if |key| > MAX_KEY_LEN { return LIMIT_KEY; }
      if |val| > MAX_VAL_LEN { return LIMIT_VAL; }
      memtable.Put(key, val);
      staged := staged + [Op.Put(key, val)];
      return OK;
    }

    method Del(key: bytes) returns (res: Result)
      requires Valid()
      modifies this, memtable
      ensures Valid()
      ensures res == DelResult(old(Memory()), key)
      ensures Memory() == if res == OK then Stage(old(Memory()), Op.Del(key)) else old(Memory())
    {
      if |key| == 0 { return INVALID_ARG; }
      if |key| > MAX_KEY_LEN { return LIMIT_KEY; }
      var _, found := memtable.Find(key);
      if !found { return NOT_FOUND; }
      var _ := memtable.Del(key);
      staged := staged + [Op.Del(key)];
      return OK;
    }

    /** Reads your own writes; reports the length even when the buffer is too small. */
    method Get(key: bytes, capacity: nat) returns (res: Result, val: bytes, len: nat)
      requires Valid()
      ensures res == INVALID_ARG <==> key == []
      ensures res == NOT_FOUND <==> key != [] && key !in Contents(memtable.entries)
      ensures res == LIMIT_VAL <==>
                key != [] && key in Contents(memtable.entries) && capacity < |Contents(memtable.entries)[key]|
      ensures key != [] && key in Contents(memtable.entries) ==> len == |Contents(memtable.entries)[key]|
      ensures res == OK ==> val == Contents(memtable.entries)[key]
      ensures res in {INVALID_ARG, NOT_FOUND, LIMIT_VAL, OK}
    {
      if |key| == 0 { return INVALID_ARG, [], 0; }
      var idx, found := memtable.Find(key);
      if !found { return NOT_FOUND, [], 0; }
      var v := memtable.entries[idx].val;
      if capacity < |v| { return LIMIT_VAL, [], |v|; }
      return OK, v, |v|;
    }

    /** Writes the staged frames one by one, up to the first short write. */
    method WriteBatch(fault: Option<WriteFault>) returns (ok: bool, cursor: nat)
      requires Valid()
      modifies files`wal
      ensures ok <==> !Faulty(h, staged, fault)
      ensures ok ==> cursor == walSize + |Log(h, staged)|
      ensures files.wal == Overwrite(old(files.wal), walSize,
                                     if ok then Log(h, staged) else Torn(h, staged, fault.value))
    {
      hide Overwrite, Frame, FrameCode;
      var i := 0;
      cursor := walSize;
      OverwriteNothing(files.wal, walSize);
      while i < |staged|
        invariant 0 <= i <= |staged| && cursor == walSize + |Log(h, staged[..i])|
        invariant files.wal == Overwrite(old(files.wal), walSize, Log(h, staged[..i]))
        invariant Faulty(h, staged, fault) ==> i <= fault.value.frame
      {
        var buf := Frame(h, staged[i]);
        var count := if fault.Some? && fault.value.frame == i then fault.value.wrote else |buf|;
        OverwriteReaches(old(files.wal), walSize, Log(h, staged[..i]));
        var written := files.PWrite(buf, cursor, count);
        OverwriteTwice(old(files.wal), walSize, Log(h, staged[..i]), buf[..written]);
        if written != |buf| { return false, cursor; }
        LogPrefix(h, staged, i);
        assert buf[..written] == buf;
        cursor, i := cursor + |buf|, i + 1;
      }
      assert staged[..i] == staged;
      return true, cursor;
    }

    /** An interrupted commit leaves the staging queue and the cursors alone, so that a retry
        writes the same bytes at the same place. */
    method Commit(fault: Option<WriteFault>) returns (res: Result)
      requires Valid()
      modifies this, files
      ensures Valid()
      ensures res == CommitResult(h, old(Memory()), fault)
      ensures files.Disk() == CommitDisk(h, old(files.Disk()), old(Memory()), fault)
      ensures Memory() == CommitMemory(h, old(Memory()), fault)
    {
      if |staged| == 0 { return OK; }
      var total := BatchBytes();
      if walSize + total > MAX_WAL_SIZE { return LIMIT_WAL; }
      var ok, cursor := WriteBatch(fault);
      if !ok { return IO; }
      walSize, frameCount := cursor, frameCount + |staged|;
      files.synced := |files.wal|;
      staged := [];
      return OK;
    }

    /** The size of the staged batch, summed frame by frame. */
    method BatchBytes() returns (total: nat)
      ensures total == |Log(h, staged)|
    {
      total := 0;
      for i := 0 to |staged|
        invariant total == |Log(h, staged[..i])|
      {
        LogPrefix(h, staged, i);
        total := total + (4 + (1 + 2 + 4 + |staged[i].key| + |staged[i].Payload()| + 32));
      }
      assert staged[..|staged|] == staged;
    }

    /** Syncs the log and replaces the checkpoint file; `renamed` says whether every step up
        to the atomic rename succeeded. */
    method Checkpoint(walSynced: bool, renamed: bool) returns (res: Result)
      requires Valid()
      modifies files`synced, files`chk
      ensures Valid()
      ensures res == if walSynced && renamed then OK else IO
      ensures files.Disk() == CheckpointDisk(h, old(files.Disk()), Memory(), walSynced, renamed)
    {
      if !walSynced { return IO; }
      files.synced := |files.wal|;
      var root := MerkleRoot();
      var raw := ChkFields(frameCount, root);
      raw := raw + h(raw);
      if !renamed { return IO; }
      files.chk := Some(raw);
      return OK;
    }

    /** Closing syncs on a best-effort basis and drops whatever was staged. */
    method Close(walSynced: bool)
      requires Valid()
      modifies this, files`synced, memtable
      ensures files.Disk() == CloseDisk(old(files.Disk()), walSynced)
      ensures staged == [] && memtable.entries == []
    {
      if walSynced { files.synced := |files.wal|; }
      staged := [];
      memtable.entries := [];
    }
  }

  /** Opens the files: recovery first, then the checkpoint has its say. */
  method Open(h: Hash, files: Files, io: OpenIo) returns (res: Result, s: Store?)
    modifies files
    ensures res == OpenResult(h, old(files.Disk()), io)
    ensures files.Disk() == OpenDisk(h, old(files.Disk()), io)
    ensures (s != null) == (res == OK)
    ensures s != null ==> fresh(s) && s.files == files && s.h == h && s.Valid()
    ensures s != null ==> s.Memory() == OpenMemory(h, old(files.Disk()))
  {
    var store := new Store(h, files);
    res := store.Recover(io);
    if res != OK { return res, null; }
    res := store.VerifyCheckpoint();
    if res != OK { return res, null; }
    return OK, store;
  }

  lemma OverwriteNothing(file: bytes, at: nat)
    requires at <= |file|
    ensures Overwrite(file, at, []) == file
  {
  }

  lemma OverwriteTwice(file: bytes, at: nat, a: bytes, b: bytes)
    requires at <= |file|
    ensures Overwrite(Overwrite(file, at, a), at + |a|, b) == Overwrite(file, at, a + b)
  {
  }
}
