/** Whole runs of the store: puts, deletes, commits that fail half-way, checkpoints, closes,
    crashes at any byte, and reopenings. */
module StoreRuns {
  import opened Bytes
  import opened Seqs
  import opened MemTable
  import opened StoreMerkle
  import opened PrefixCodes
  import opened Wal
  import opened StoreSpec

  datatype State = State(disk: Disk, mem: Option<Memory>)

  datatype Event =
    | EvOpen(io: OpenIo)
    | EvPut(key: bytes, val: bytes)
    | EvDel(key: bytes)
    | EvCommit(fault: Option<WriteFault>)
    | EvCheckpoint(walSynced: bool, renamed: bool)
    | EvClose(walSynced: bool)
    | EvCrash(cut: nat)

  /** Which events can happen: calls need an open store, a crash keeps what was synced. */
  ghost predicate Enabled(h: Hash, s: State, e: Event)
  {
    match e
    case EvOpen(_) => s.mem.None?
    case EvCrash(cut) => s.disk.synced <= cut <= |s.disk.wal|
    case EvCommit(_) => s.mem.Some? && s.mem.value.walSize <= |s.disk.wal|
    case _ => s.mem.Some?
  }

  ghost function Step(h: Hash, s: State, e: Event): (r: (Result, State))
    requires Enabled(h, s, e)
  {
    match e
    case EvOpen(io) =>
      var res := OpenResult(h, s.disk, io);
      (res, State(OpenDisk(h, s.disk, io), if res == OK then Some(OpenMemory(h, s.disk)) else None))
    case EvPut(key, val) =>
      var res := PutResult(key, val);
      (res, if res == OK then s.(mem := Some(Stage(s.mem.value, Put(key, val)))) else s)
    case EvDel(key) =>
      var res := DelResult(s.mem.value, key);
      (res, if res == OK then s.(mem := Some(Stage(s.mem.value, Del(key)))) else s)
    case EvCommit(fault) =>
      (CommitResult(h, s.mem.value, fault),
       State(CommitDisk(h, s.disk, s.mem.value, fault), Some(CommitMemory(h, s.mem.value, fault))))
    case EvCheckpoint(walSynced, renamed) =>
      (if walSynced && renamed then OK else IO,
       s.(disk := CheckpointDisk(h, s.disk, s.mem.value, walSynced, renamed)))
    case EvClose(walSynced) => (OK, State(CloseDisk(s.disk, walSynced), None))
    case EvCrash(cut) =>
      (OK, State(s.disk.(wal := s.disk.wal[..cut], synced := cut), None))
  }

  const NEW: State := State(Disk([], 0, None), None)

  datatype Run = Run(states: seq<State>, events: seq<Event>)

  ghost predicate IsRun(h: Hash, r: Run)
  {
    && |r.states| == |r.events| + 1 && r.states[0] == NEW
    && forall i :: 0 <= i < |r.events| ==> StepAt(h, r, i)
  }

  ghost predicate StepAt(h: Hash, r: Run, i: nat)
    requires i < |r.events| && |r.states| == |r.events| + 1
  {
    Enabled(h, r.states[i], r.events[i]) && r.states[i + 1] == Step(h, r.states[i], r.events[i]).1
  }

  // ---------------------------------------------------------------- what is on disk

  /** The log that would be recovered if power failed now and every unsynced byte was lost. */
  ghost function Durable(h: Hash, d: Disk): seq<Op>
    requires d.synced <= |d.wal|
  {
    Recovered(h, d.wal[..d.synced])
  }

  /** The log behind the cursors of an open store. */
  ghost function Committed(h: Hash, s: State): seq<Op>
    requires s.mem.Some? && s.mem.value.walSize <= |s.disk.wal|
  {
    Recovered(h, s.disk.wal[..s.mem.value.walSize])
  }

  function WalOf(h: Hash, log: seq<Op>): bytes
  {
    HEADER + Log(h, log)
  }

  lemma RecoveredLog(h: Hash, log: seq<Op>)
    requires ValidOps(log)
    ensures Recovered(h, WalOf(h, log)) == log
  {
    FramesPrefixFree(h);
    var c := FrameCode(h);
    DecodeConcat(c, HEADER, log, []);
    assert HEADER + Concat(c, log) + [] == WalOf(h, log);
    NoWordAtEnd(c, WalOf(h, log));
  }

  /** A cut log file recovers to the frames that are whole. */
  lemma RecoveredCut(h: Hash, log: seq<Op>, cut: nat)
    requires ValidOps(log) && |HEADER| <= cut <= |WalOf(h, log)|
    ensures Recovered(h, WalOf(h, log)[..cut]) == log[..WholeWords(FrameCode(h), log, cut - |HEADER|)]
  {
    hide Decode, WholeWords, Concat;
    FramesPrefixFree(h);
    DecodeTorn(FrameCode(h), HEADER, log, cut - |HEADER|);
    assert WalOf(h, log)[..cut] == HEADER + Log(h, log)[..cut - |HEADER|];
  }

  lemma RecoveredMonotone(h: Hash, a: bytes, b: bytes)
    requires a <= b
    ensures Recovered(h, a) <= Recovered(h, b)
  {
    if HasHeader(a) {
      FramesPrefixFree(h);
      assert b == a + b[|a|..];
      DecodeMonotone(FrameCode(h), a, b[|a|..], |HEADER|);
    }
  }

  lemma RecoveredSound(h: Hash, wal: bytes)
    requires HasHeader(wal)
    ensures var log := Recovered(h, wal); ValidOps(log) && WalOf(h, log) <= wal
  {
    var c := FrameCode(h);
    FramesPrefixFree(h);
    DecodeSound(c, wal, |HEADER|);
    var log := Recovered(h, wal);
    assert AllValid(c, log);
    forall i | 0 <= i < |log| ensures ValidOp(log[i]) {
      assert c.valid(log[i]);
    }
    JoinSlices(wal, 0, |HEADER|, |HEADER| + |Concat(c, log)|);
  }

  // ---------------------------------------------------------------- the invariant

  /** An open store: the file holds the committed log and then some beginning of the frames
      of the staged operations; the table is the replay of both. */
  ghost predicate OpenInv(h: Hash, wal: bytes, m: Memory, log: seq<Op>)
  {
    && ValidOps(log) && ValidOps(m.staged)
    && m.walSize == |WalOf(h, log)| && m.frameCount == |log|
    && m.table == Replay(map[], log + m.staged)
    && WalOf(h, log) <= wal <= WalOf(h, log + m.staged)
  }

  ghost predicate DiskInv(d: Disk)
  {
    && d.synced <= |d.wal| <= MAX_WAL_SIZE
    && (d.wal <= HEADER || HEADER <= d.wal)
  }

  ghost predicate Inv(h: Hash, s: State)
  {
    && DiskInv(s.disk)
    && (s.mem.Some? ==> exists log :: OpenInv(h, s.disk.wal, s.mem.value, log))
  }

  lemma CommittedIs(h: Hash, s: State, log: seq<Op>)
    requires s.mem.Some? && OpenInv(h, s.disk.wal, s.mem.value, log)
    ensures s.mem.value.walSize <= |s.disk.wal| && Committed(h, s) == log
  {
    assert s.disk.wal[..s.mem.value.walSize] == WalOf(h, log);
    RecoveredLog(h, log);
  }

  lemma CommittedInv(h: Hash, s: State)
    requires Inv(h, s) && s.mem.Some?
    ensures s.mem.value.walSize <= |s.disk.wal|
    ensures OpenInv(h, s.disk.wal, s.mem.value, Committed(h, s))
  {
    var log :| OpenInv(h, s.disk.wal, s.mem.value, log);
    CommittedIs(h, s, log);
  }

  lemma WalOfConcat(h: Hash, a: seq<Op>, b: seq<Op>)
    ensures WalOf(h, a + b) == WalOf(h, a) + Log(h, b)
  {
    ConcatAppend(FrameCode(h), a, b);
  }

  // ---------------------------------------------------------------- one step at a time

  lemma StageStep(h: Hash, wal: bytes, m: Memory, log: seq<Op>, op: Op)
    requires OpenInv(h, wal, m, log) && ValidOp(op)
    ensures OpenInv(h, wal, Stage(m, op), log)
  {
    var staged := m.staged + [op];
    assert log + staged == (log + m.staged) + [op];
    ReplaySnoc(map[], log + m.staged, op);
    WalOfConcat(h, log + m.staged, [op]);
  }

  lemma OverwritePrefix(file: bytes, base: bytes, full: bytes, data: bytes)
    requires base <= file <= full && base + data <= full
    ensures var r := Overwrite(file, |base|, data);
            r == (if |base + data| < |file| then file else base + data) && file <= r <= full
  {
    var r := Overwrite(file, |base|, data);
    if |base + data| < |file| {
      assert file[..|base + data|] == base + data;
      assert r == file;
    }
  }

  lemma TornPrefix(h: Hash, staged: seq<Op>, f: WriteFault)
    requires f.frame < |staged| && f.wrote < |Frame(h, staged[f.frame])|
    ensures Torn(h, staged, f) <= Log(h, staged)
  {
    var i := f.frame;
    assert staged == staged[..i + 1] + staged[i + 1..];
    ConcatAppend(FrameCode(h), staged[..i + 1], staged[i + 1..]);
    LogPrefix(h, staged, i);
  }

  /** What a commit does to the file, seen from the bytes in front of the cursor. */
  lemma CommitBytes(h: Hash, d: Disk, m: Memory, base: bytes, fault: Option<WriteFault>)
    requires d.synced <= |d.wal| <= MAX_WAL_SIZE && m.walSize == |base|
    requires base <= d.wal <= base + Log(h, m.staged)
    ensures var d' := CommitDisk(h, d, m, fault);
            && d.synced <= d'.synced <= |d'.wal| <= MAX_WAL_SIZE
            && d.wal <= d'.wal <= base + Log(h, m.staged)
            && (CommitResult(h, m, fault) == OK && m.staged != [] ==>
                  d'.wal == base + Log(h, m.staged) && d'.synced == |d'.wal|)
  {
    if m.staged != [] && |base| + |Log(h, m.staged)| <= MAX_WAL_SIZE {
      if Faulty(h, m.staged, fault) {
        TornPrefix(h, m.staged, fault.value);
        OverwritePrefix(d.wal, base, base + Log(h, m.staged), Torn(h, m.staged, fault.value));
      } else {
        OverwritePrefix(d.wal, base, base + Log(h, m.staged), Log(h, m.staged));
      }
    }
  }

  lemma CommitStep(h: Hash, d: Disk, m: Memory, log: seq<Op>, fault: Option<WriteFault>)
    requires DiskInv(d) && OpenInv(h, d.wal, m, log)
    ensures var d' := CommitDisk(h, d, m, fault);
            var m' := CommitMemory(h, m, fault);
            && DiskInv(d') && d.wal <= d'.wal && d.synced <= d'.synced
            && OpenInv(h, d'.wal, m', if CommitResult(h, m, fault) == OK then log + m.staged else log)
  {
    hide Log, Replay, CommitDisk, MapRoot;
    WalOfConcat(h, log, m.staged);
    CommitBytes(h, d, m, WalOf(h, log), fault);
    if m.staged == [] { assert log + m.staged == log; }
    assert (log + m.staged) + [] == log + m.staged;
  }

  lemma OpenStep(h: Hash, d: Disk, io: OpenIo)
    requires DiskInv(d)
    ensures var d' := OpenDisk(h, d, io);
            && DiskInv(d') && Durable(h, d) <= Durable(h, d')
            && (OpenResult(h, d, io) == OK ==> OpenInv(h, d'.wal, OpenMemory(h, d), Recovered(h, d.wal)))
  {
    hide OpenInv, OpenMemory, OpenDisk, OpenResult, Durable;
    if d.wal == [] {
      OpenEmpty(h, d, io);
    } else if HasHeader(d.wal) {
      OpenHeader(h, d, io);
    } else {
      OpenRefused(h, d, io);
    }
  }

  lemma OpenEmpty(h: Hash, d: Disk, io: OpenIo)
    requires DiskInv(d) && d.wal == []
    ensures var d' := OpenDisk(h, d, io);
            && DiskInv(d') && Durable(h, d) <= Durable(h, d')
            && (OpenResult(h, d, io) == OK ==> OpenInv(h, d'.wal, OpenMemory(h, d), Recovered(h, d.wal)))
  {
    hide MapRoot;
    assert Log(h, []) == [] && HEADER + [] == HEADER && Replay(map[], [] + []) == map[];
    assert Recovered(h, []) == [] && d.wal[..d.synced] == [];
  }

  lemma OpenRefused(h: Hash, d: Disk, io: OpenIo)
    requires DiskInv(d) && d.wal != [] && !HasHeader(d.wal)
    ensures OpenDisk(h, d, io) == d && OpenResult(h, d, io) == CORRUPT
  {
  }

  lemma OpenHeader(h: Hash, d: Disk, io: OpenIo)
    requires DiskInv(d) && HasHeader(d.wal)
    ensures var d' := OpenDisk(h, d, io);
            && DiskInv(d') && Durable(h, d) <= Durable(h, d')
            && OpenInv(h, d'.wal, OpenMemory(h, d), Recovered(h, d.wal))
  {
    hide Recovered, Durable, Log, Replay;
    RecoveredSound(h, d.wal);
    var log := Recovered(h, d.wal);
    var d' := OpenDisk(h, d, io);
    assert d'.wal == WalOf(h, log);
    assert log + [] == log;
    RecoveredLog(h, log);
    OpenKeepsDurable(h, d, d', log);
  }

  lemma OpenKeepsDurable(h: Hash, d: Disk, d': Disk, log: seq<Op>)
    requires d.synced <= |d.wal| && log == Recovered(h, d.wal) == Recovered(h, d'.wal)
    requires d'.wal <= d.wal && d'.synced <= |d'.wal|
    requires d'.synced == |d'.wal| || d'.synced == d.synced
    ensures Durable(h, d) <= Durable(h, d')
  {
    if d'.synced == |d'.wal| {
      assert d'.wal[..d'.synced] == d'.wal;
      RecoveredMonotone(h, d.wal[..d.synced], d.wal);
    } else {
      assert d'.wal[..d'.synced] == d.wal[..d.synced];
    }
  }

  lemma SyncedGrows(h: Hash, d: Disk, d': Disk)
    requires d.synced <= |d.wal| && d'.synced <= |d'.wal|
    requires d.synced <= d'.synced && d.wal[..d.synced] == d'.wal[..d.synced]
    ensures Durable(h, d) <= Durable(h, d')
  {
    assert d'.wal[..d'.synced][..d.synced] == d.wal[..d.synced];
    RecoveredMonotone(h, d.wal[..d.synced], d'.wal[..d'.synced]);
  }

  lemma StageInv(h: Hash, s: State, op: Op)
    requires Inv(h, s) && s.mem.Some? && ValidOp(op)
    ensures Inv(h, s.(mem := Some(Stage(s.mem.value, op))))
  {
    var log :| OpenInv(h, s.disk.wal, s.mem.value, log);
    StageStep(h, s.disk.wal, s.mem.value, log, op);
  }

  lemma CommitInv(h: Hash, s: State, fault: Option<WriteFault>)
    requires Inv(h, s) && s.mem.Some? && s.mem.value.walSize <= |s.disk.wal|
    ensures var d' := CommitDisk(h, s.disk, s.mem.value, fault);
            && Inv(h, State(d', Some(CommitMemory(h, s.mem.value, fault))))
            && Durable(h, s.disk) <= Durable(h, d')
  {
    hide OpenInv, CommitDisk, CommitMemory, CommitResult, Durable;
    var log :| OpenInv(h, s.disk.wal, s.mem.value, log);
    CommitStep(h, s.disk, s.mem.value, log, fault);
    PrefixGrows(h, s.disk, CommitDisk(h, s.disk, s.mem.value, fault));
  }

  lemma PrefixGrows(h: Hash, d: Disk, d': Disk)
    requires d.synced <= |d.wal| && d'.synced <= |d'.wal| && d.wal <= d'.wal && d.synced <= d'.synced
    ensures Durable(h, d) <= Durable(h, d')
  {
    hide Durable;
    assert d'.wal[..|d.wal|] == d.wal;
    SyncedGrows(h, d, d');
  }

  lemma OpenInvStep(h: Hash, d: Disk, io: OpenIo)
    requires DiskInv(d)
    ensures var d' := OpenDisk(h, d, io);
            && Inv(h, State(d', if OpenResult(h, d, io) == OK then Some(OpenMemory(h, d)) else None))
            && Durable(h, d) <= Durable(h, d')
  {
    OpenStep(h, d, io);
  }

  /** Every step keeps the invariant and never loses anything durable. */
  lemma StepInv(h: Hash, s: State, e: Event)
    requires Inv(h, s) && Enabled(h, s, e)
    ensures var s' := Step(h, s, e).1; Inv(h, s') && Durable(h, s.disk) <= Durable(h, s'.disk)
  {
    hide OpenInv, Recovered, OpenMemory, OpenDisk, OpenResult, CommitDisk, CommitMemory, CommitResult, Stage, Durable;
    match e {
      case EvOpen(io) => OpenInvStep(h, s.disk, io);
      case EvPut(key, val) => if PutResult(key, val) == OK { StageInv(h, s, Put(key, val)); }
      case EvDel(key) => if DelResult(s.mem.value, key) == OK { StageInv(h, s, Del(key)); }
      case EvCommit(fault) => CommitInv(h, s, fault);
      case EvCheckpoint(walSynced, renamed) =>
        SyncedGrows(h, s.disk, CheckpointDisk(h, s.disk, s.mem.value, walSynced, renamed));
      case EvClose(walSynced) => SyncedGrows(h, s.disk, CloseDisk(s.disk, walSynced));
      case EvCrash(cut) =>
        SubSlice(s.disk.wal, 0, cut, 0, s.disk.synced);
        SyncedGrows(h, s.disk, s.disk.(wal := s.disk.wal[..cut], synced := cut));
    }
  }

  // ---------------------------------------------------------------- whole runs

  lemma {:induction false} RunInv(h: Hash, r: Run, i: nat)
    requires IsRun(h, r) && i < |r.states|
    ensures Inv(h, r.states[i])
  {
    if i > 0 {
      RunInv(h, r, i - 1);
      assert StepAt(h, r, i - 1);
      StepInv(h, r.states[i - 1], r.events[i - 1]);
    }
  }

  /** In every reachable state of an open store the table is the replay of the committed log
      and then of the staged operations, and the cursors describe that log. */
  lemma TableIsReplay(h: Hash, r: Run, i: nat)
    requires IsRun(h, r) && i < |r.states| && r.states[i].mem.Some?
    ensures var s := r.states[i]; var m := s.mem.value;
            && m.walSize <= |s.disk.wal|
            && m.table == Replay(Replay(map[], Committed(h, s)), m.staged)
            && m.frameCount == |Committed(h, s)|
            && m.walSize == |WalOf(h, Committed(h, s))|
  {
    RunInv(h, r, i);
    CommittedInv(h, r.states[i]);
    ReplayConcat(map[], Committed(h, r.states[i]), r.states[i].mem.value.staged);
  }

  lemma {:induction false} DurableGrows(h: Hash, r: Run, i: nat, j: nat)
    requires IsRun(h, r) && i <= j < |r.states|
    ensures r.states[i].disk.synced <= |r.states[i].disk.wal| && r.states[j].disk.synced <= |r.states[j].disk.wal|
    ensures Durable(h, r.states[i].disk) <= Durable(h, r.states[j].disk)
  {
    hide Durable, OpenInv, Step, Enabled;
    RunInv(h, r, i);
    RunInv(h, r, j);
    if i < j {
      DurableGrows(h, r, i, j - 1);
      RunInv(h, r, j - 1);
      assert StepAt(h, r, j - 1);
      StepInv(h, r.states[j - 1], r.events[j - 1]);
    }
  }

  lemma CommitSyncs(h: Hash, s: State, fault: Option<WriteFault>)
    requires Inv(h, s) && s.mem.Some? && s.mem.value.staged != []
    requires CommitResult(h, s.mem.value, fault) == OK
    ensures var m := s.mem.value;
            && m.walSize <= |s.disk.wal|
            && var d := CommitDisk(h, s.disk, m, fault);
            d.synced <= |d.wal| && Durable(h, d) == Committed(h, s) + m.staged
  {
    CommittedInv(h, s);
    var log, m := Committed(h, s), s.mem.value;
    WalOfConcat(h, log, m.staged);
    CommitBytes(h, s.disk, m, WalOf(h, log), fault);
    var d := CommitDisk(h, s.disk, m, fault);
    assert d.wal[..d.synced] == WalOf(h, log + m.staged);
    RecoveredLog(h, log + m.staged);
  }

  lemma CommitAt(h: Hash, r: Run, i: nat, fault: Option<WriteFault>)
    requires IsRun(h, r) && i < |r.events| && r.events[i] == EvCommit(fault)
    requires r.states[i].mem.Some? && r.states[i].mem.value.staged != []
    requires CommitResult(h, r.states[i].mem.value, fault) == OK
    ensures var s, d := r.states[i], r.states[i + 1].disk;
            && s.mem.value.walSize <= |s.disk.wal| && d.synced <= |d.wal|
            && Durable(h, d) == Committed(h, s) + s.mem.value.staged
  {
    assert StepAt(h, r, i);
    RunInv(h, r, i);
    CommitSyncs(h, r.states[i], fault);
  }

  /** What a successful commit acknowledged is never lost: at every later point of every run
      it is a prefix of what the file recovers to, also if all unsynced bytes vanish. */
  lemma CommitIsDurable(h: Hash, r: Run, i: nat, j: nat, fault: Option<WriteFault>)
    requires IsRun(h, r) && i < j < |r.states| && r.events[i] == EvCommit(fault)
    requires r.states[i].mem.Some? && r.states[i].mem.value.staged != []
    requires CommitResult(h, r.states[i].mem.value, fault) == OK
    ensures var s, d := r.states[i], r.states[j].disk;
            && s.mem.value.walSize <= |s.disk.wal| && d.synced <= |d.wal|
            && Committed(h, s) + s.mem.value.staged <= Durable(h, d)
            && Durable(h, d) <= Recovered(h, d.wal)
  {
    hide CommitResult, Durable, Recovered, Committed;
    CommitAt(h, r, i, fault);
    DurableGrows(h, r, i + 1, j);
    DurableIsRecovered(h, r.states[j].disk);
  }

  lemma DurableIsRecovered(h: Hash, d: Disk)
    requires d.synced <= |d.wal|
    ensures Durable(h, d) <= Recovered(h, d.wal)
  {
    RecoveredMonotone(h, d.wal[..d.synced], d.wal);
  }

  lemma CutLog(h: Hash, log: seq<Op>, staged: seq<Op>, wal: bytes, cut: nat)
    requires ValidOps(log + staged) && wal <= WalOf(h, log + staged)
    requires |WalOf(h, log)| <= cut <= |wal|
    ensures Recovered(h, wal[..cut]) == log + staged[..WholeWords(FrameCode(h), staged, cut - |WalOf(h, log)|)]
  {
    hide Recovered, WholeWords, ValidOps;
    var c := FrameCode(h);
    TakeOfPrefix(wal, WalOf(h, log + staged), cut);
    RecoveredCut(h, log + staged, cut);
    WholeWordsAppend(c, log, staged, cut - |HEADER|);
    TakeConcat(log, staged, WholeWords(c, staged, cut - |WalOf(h, log)|));
  }

  lemma TakeOfPrefix<T>(a: seq<T>, b: seq<T>, n: nat)
    requires a <= b && n <= |a|
    ensures a[..n] == b[..n]
  {
  }

  lemma TakeConcat<T>(a: seq<T>, b: seq<T>, n: nat)
    requires n <= |b|
    ensures (a + b)[..|a| + n] == a + b[..n]
  {
  }

  lemma OpenWal(h: Hash, wal: bytes, m: Memory, log: seq<Op>)
    requires OpenInv(h, wal, m, log)
    ensures ValidOps(log + m.staged) && wal <= WalOf(h, log + m.staged) && m.walSize == |WalOf(h, log)|
  {
  }

  lemma CutState(h: Hash, s: State, cut: nat)
    requires Inv(h, s) && s.mem.Some? && s.mem.value.walSize <= cut <= |s.disk.wal|
    ensures var staged := s.mem.value.staged;
            Recovered(h, s.disk.wal[..cut]) ==
              Committed(h, s) + staged[..WholeWords(FrameCode(h), staged, cut - s.mem.value.walSize)]
  {
    hide Recovered, Committed, WholeWords, Log;
    CommittedInv(h, s);
    OpenWal(h, s.disk.wal, s.mem.value, Committed(h, s));
    CutLog(h, Committed(h, s), s.mem.value.staged, s.disk.wal, cut);
  }

  /** A crash that cuts the file at any byte from the commit cursor on leaves exactly the
      committed log and those staged frames of an interrupted batch that are whole. */
  lemma CrashRecovers(h: Hash, r: Run, i: nat, cut: nat)
    requires IsRun(h, r) && i < |r.states| && r.states[i].mem.Some?
    requires r.states[i].mem.value.walSize <= cut <= |r.states[i].disk.wal|
    ensures var s := r.states[i];
            var staged := s.mem.value.staged;
            Recovered(h, s.disk.wal[..cut]) ==
              Committed(h, s) + staged[..WholeWords(FrameCode(h), staged, cut - s.mem.value.walSize)]
  {
    hide Recovered, Committed, IsRun, WholeWords, Inv;
    RunInv(h, r, i);
    CutState(h, r.states[i], cut);
  }

  /** Opening a reachable store is refused as corrupt exactly when the write of the very first
      header was interrupted: the file is then a non-empty proper part of the header. */
  lemma CorruptOnlyAfterTornHeader(h: Hash, r: Run, i: nat, io: OpenIo)
    requires IsRun(h, r) && i < |r.states| && r.states[i].mem.None?
    ensures var wal := r.states[i].disk.wal;
            OpenResult(h, r.states[i].disk, io) == CORRUPT <==> wal < HEADER && wal != []
  {
    RunInv(h, r, i);
    var wal := r.states[i].disk.wal;
    if HEADER <= wal && wal <= HEADER { assert wal == HEADER; }
  }

  /** A closed store whose first header was cut short. */
  ghost predicate TornHeader(s: State)
  {
    s.mem.None? && s.disk.wal < HEADER && s.disk.wal != []
  }

  /** Every short write of the first header leaves such a state. */
  lemma TornHeaderReached(h: Hash, s: State, io: OpenIo)
    requires s.mem.None? && s.disk.wal == [] && 0 < io.headerWritten < |HEADER|
    ensures var (res, s') := Step(h, s, EvOpen(io));
            res == IO && s'.disk.wal == HEADER[..io.headerWritten] && TornHeader(s')
  {
  }

  ghost predicate LosesAll(e: Event)
  {
    e == EvCrash(0)
  }

  /** From there on every opening answers that the file is corrupt and leaves it alone, unless a
      crash takes the whole file away. */
  lemma {:induction false} TornHeaderStays(h: Hash, r: Run, i: nat, j: nat)
    requires IsRun(h, r) && i <= j < |r.states| && TornHeader(r.states[i])
    requires forall k :: i <= k < j ==> !LosesAll(r.events[k])
    ensures TornHeader(r.states[j])
    ensures forall io :: OpenResult(h, r.states[j].disk, io) == CORRUPT
  {
    if i < j {
      TornHeaderStays(h, r, i, j - 1);
      assert StepAt(h, r, j - 1) && !LosesAll(r.events[j - 1]);
    }
  }

  // ---------------------------------------------------------------- checkpoints

  /** Checkpoints are taken with an empty staging queue only. */
  ghost predicate CleanCheckpoints(r: Run)
    requires |r.states| == |r.events| + 1
  {
    forall i :: 0 <= i < |r.events| && r.events[i].EvCheckpoint? && r.states[i].mem.Some?
      ==> r.states[i].mem.value.staged == []
  }

  ghost predicate Succeeds(e: Event)
  {
    e == EvCheckpoint(true, true)
  }

  /** Event i is the last checkpoint in front of state j that succeeded. */
  ghost predicate LastCheckpoint(r: Run, i: nat, j: nat)
    requires |r.states| == |r.events| + 1
  {
    && i < j < |r.states| && r.states[i].mem.Some? && Succeeds(r.events[i])
    && forall k :: i < k < j ==> !Succeeds(r.events[k])
  }

  lemma {:induction false} LogNotShorter(h: Hash, ops: seq<Op>)
    ensures |ops| <= |Log(h, ops)|
  {
    if ops != [] { LogNotShorter(h, ops[1..]); }
  }

  ghost predicate HeaderSynced(d: Disk)
  {
    |HEADER| <= d.synced <= |d.wal| && HEADER <= d.wal
  }

  /** What a checkpoint found is on disk for good. */
  lemma CheckpointSyncs(h: Hash, s: State)
    requires Inv(h, s) && s.mem.Some?
    ensures s.mem.value.walSize <= |s.disk.wal|
    ensures var d := CheckpointDisk(h, s.disk, s.mem.value, true, true);
            HeaderSynced(d) && Committed(h, s) <= Durable(h, d)
  {
    CommittedInv(h, s);
    assert s.disk.wal[..|s.disk.wal|] == s.disk.wal;
    RecoveredMonotone(h, s.disk.wal[..s.mem.value.walSize], s.disk.wal);
  }

  /** Nothing but another checkpoint touches the checkpoint file, and nothing the header. */
  lemma CheckpointKept(h: Hash, s: State, e: Event)
    requires Inv(h, s) && Enabled(h, s, e) && HeaderSynced(s.disk) && !Succeeds(e)
    ensures var d := Step(h, s, e).1.disk; HeaderSynced(d) && d.chk == s.disk.chk
  {
    hide OpenInv, Recovered, CommitMemory, CommitResult;
    if e.EvCommit? {
      var log :| OpenInv(h, s.disk.wal, s.mem.value, log);
      CommitStep(h, s.disk, s.mem.value, log, e.fault);
      CommitKeepsChk(h, s.disk, s.mem.value, e.fault);
    }
  }

  lemma CommitKeepsChk(h: Hash, d: Disk, m: Memory, fault: Option<WriteFault>)
    requires m.walSize <= |d.wal|
    ensures CommitDisk(h, d, m, fault).chk == d.chk
  {
  }

  /** The checkpoint file in every later state of a run. */
  lemma {:induction false} CheckpointOnDisk(h: Hash, r: Run, i: nat, j: nat)
    requires IsRun(h, r) && LastCheckpoint(r, i, j)
    ensures r.states[i].mem.value.walSize <= |r.states[i].disk.wal|
    ensures r.states[i + 1].disk.synced <= |r.states[i + 1].disk.wal|
    ensures Committed(h, r.states[i]) <= Durable(h, r.states[i + 1].disk)
    ensures var m, d := r.states[i].mem.value, r.states[j].disk;
            HeaderSynced(d) && d.chk == Some(ChkFile(h, m.frameCount, MapRoot(h, m.table)))
  {
    hide Step, Durable, Committed, ChkFile, MapRoot;
    RunInv(h, r, j - 1);
    assert StepAt(h, r, j - 1);
    if j == i + 1 {
      CheckpointSyncs(h, r.states[i]);
      CheckpointEffect(h, r.states[i]);
    } else {
      CheckpointOnDisk(h, r, i, j - 1);
      CheckpointKept(h, r.states[j - 1], r.events[j - 1]);
    }
  }

  lemma CheckpointEffect(h: Hash, s: State)
    requires s.mem.Some?
    ensures Step(h, s, EvCheckpoint(true, true)).1.disk == CheckpointDisk(h, s.disk, s.mem.value, true, true)
    ensures CheckpointDisk(h, s.disk, s.mem.value, true, true).chk ==
            Some(ChkFile(h, s.mem.value.frameCount, MapRoot(h, s.mem.value.table)))
  {
  }

  /** Without a checkpoint there is no file. */
  lemma {:induction false} NoCheckpoint(h: Hash, r: Run, j: nat)
    requires IsRun(h, r) && j < |r.states| && forall k :: 0 <= k < j ==> !Succeeds(r.events[k])
    ensures r.states[j].disk.chk == None
  {
    hide OpenResult, OpenMemory, CommitMemory, CommitResult, Recovered;
    if j > 0 {
      NoCheckpoint(h, r, j - 1);
      assert StepAt(h, r, j - 1);
    }
  }

  /** There is a last checkpoint, or none. */
  lemma {:induction false} FindLast(h: Hash, r: Run, j: nat) returns (found: Option<nat>)
    requires IsRun(h, r) && j < |r.states|
    ensures found.Some? ==> LastCheckpoint(r, found.value, j)
    ensures found.None? ==> forall k :: 0 <= k < j ==> !Succeeds(r.events[k])
  {
    if j == 0 {
      found := None;
    } else if Succeeds(r.events[j - 1]) {
      assert StepAt(h, r, j - 1);
      found := Some(j - 1);
    } else {
      found := FindLast(h, r, j - 1);
    }
  }

  /** The count of the checkpoint of event i fits the file in state j, but its root is not the
      root of what had been committed. */
  ghost predicate Outdated(h: Hash, r: Run, i: nat, j: nat)
    requires i < |r.states| && j < |r.states| && r.states[i].mem.Some?
  {
    var m := r.states[i].mem.value;
    && m.walSize <= |r.states[i].disk.wal|
    && |Recovered(h, r.states[j].disk.wal)| == m.frameCount
    && MapRoot(h, m.table) != MapRoot(h, Replay(map[], Committed(h, r.states[i])))
  }

  /** What a reopening makes of the last checkpoint, however many commits, failures, crashes and
      reopenings lie between: it is refused exactly when the log on disk still has the length
      the checkpoint counted and the operations staged at the checkpoint had changed the root. */
  lemma CheckpointVerdict(h: Hash, r: Run, i: nat, j: nat, io: OpenIo)
    requires IsRun(h, r) && LastCheckpoint(r, i, j)
    ensures OpenResult(h, r.states[j].disk, io) == CHK_MISMATCH <==> Outdated(h, r, i, j)
  {
    hide Durable, Committed, Recovered, ChkFile, MapRoot, Replay, IsRun;
    var s, d := r.states[i], r.states[j].disk;
    RunInv(h, r, i);
    CommittedInv(h, s);
    CheckpointOnDisk(h, r, i, j);
    DurableGrows(h, r, i + 1, j);
    DurableIsRecovered(h, d);
    LogNotShorter(h, Committed(h, s));
    ChkParts(h, s.mem.value.frameCount, MapRoot(h, s.mem.value.table));
    SamePrefix(Committed(h, s), Durable(h, r.states[i + 1].disk), Durable(h, d), Recovered(h, d.wal));
  }

  lemma SamePrefix<T>(a: seq<T>, b: seq<T>, c: seq<T>, d: seq<T>)
    requires a <= b <= c <= d
    ensures |d| == |a| ==> d == a
  {
  }

  /** Over all runs: reopening meets a mismatch exactly after such a checkpoint. */
  lemma MismatchExactly(h: Hash, r: Run, j: nat, io: OpenIo)
    requires IsRun(h, r) && j < |r.states|
    ensures OpenResult(h, r.states[j].disk, io) == CHK_MISMATCH <==>
            exists i: nat :: LastCheckpoint(r, i, j) && Outdated(h, r, i, j)
  {
    hide Outdated, OpenDisk, Recovered;
    var found := FindLast(h, r, j);
    if found.Some? {
      CheckpointVerdict(h, r, found.value, j, io);
      OneLast(r, found.value, j);
    } else {
      NoCheckpoint(h, r, j);
      assert forall i: nat :: !LastCheckpoint(r, i, j);
    }
  }

  lemma OneLast(r: Run, i: nat, j: nat)
    requires |r.states| == |r.events| + 1 && LastCheckpoint(r, i, j)
    ensures forall k: nat :: LastCheckpoint(r, k, j) ==> k == i
  {
  }

  lemma CleanIsCurrent(h: Hash, r: Run, i: nat, j: nat)
    requires IsRun(h, r) && LastCheckpoint(r, i, j) && r.states[i].mem.value.staged == []
    ensures !Outdated(h, r, i, j)
  {
    hide IsRun, Recovered;
    TableIsReplay(h, r, i);
  }

  /** Checkpoints taken with an empty staging queue never make a later open fail. */
  lemma CleanCheckpointNeverRejects(h: Hash, r: Run, j: nat, io: OpenIo)
    requires IsRun(h, r) && CleanCheckpoints(r) && j < |r.states|
    ensures OpenResult(h, r.states[j].disk, io) != CHK_MISMATCH
  {
    hide OpenResult, Recovered, Outdated;
    MismatchExactly(h, r, j, io);
    forall i: nat | LastCheckpoint(r, i, j) ensures !Outdated(h, r, i, j) {
      CleanIsCurrent(h, r, i, j);
    }
  }

  lemma {:induction false} ReplayFits(ops: seq<Op>)
    requires ValidOps(ops)
    ensures TableFits(Replay(map[], ops))
  {
    if ops != [] {
      ReplayFits(ops[..|ops| - 1]);
      assert ValidOp(ops[|ops| - 1]);
    }
  }

  /** In terms of maps: the staged operations must have changed the map, and that is enough
      unless two of the strings hashed for the two roots collide. */
  lemma OutdatedMaps(h: Hash, r: Run, i: nat, j: nat)
    requires IsRun(h, r) && LastCheckpoint(r, i, j)
    ensures var s := r.states[i];
            && s.mem.value.walSize <= |s.disk.wal|
            && var now, before := s.mem.value.table, Replay(map[], Committed(h, s));
               var changed := |Recovered(h, r.states[j].disk.wal)| == s.mem.value.frameCount && now != before;
               && (Outdated(h, r, i, j) ==> changed)
               && (changed && !Outdated(h, r, i, j)
                   ==> CollisionIn(h, RootInputs(h, SortedEntries(now)) + RootInputs(h, SortedEntries(before))))
  {
    hide IsRun, Recovered, RootInputs, CollisionIn, MapRoot;
    var s := r.states[i];
    RunInv(h, r, i);
    CommittedInv(h, s);
    ReplayFits(Committed(h, s) + s.mem.value.staged);
    ReplayFits(Committed(h, s));
    if MapRoot(h, s.mem.value.table) == MapRoot(h, Replay(map[], Committed(h, s))) {
      MapRootBinding(h, s.mem.value.table, Replay(map[], Committed(h, s)));
    }
  }

  lemma DirtyState(h: Hash, s: State, closeSynced: bool, io: OpenIo)
    requires Inv(h, s) && s.mem.Some? && s.mem.value.walSize <= |s.disk.wal|
    ensures var m := s.mem.value;
            var d := CloseDisk(CheckpointDisk(h, s.disk, m, true, true), closeSynced);
            OpenResult(h, d, io) == CHK_MISMATCH <==>
              && WholeWords(FrameCode(h), m.staged, |s.disk.wal| - m.walSize) == 0
              && MapRoot(h, m.table) != MapRoot(h, Replay(map[], Committed(h, s)))
  {
    hide Recovered, Committed, WholeWords, ChkFile, Replay, MapRoot, OpenMemory;
    CommittedInv(h, s);
    var m, log := s.mem.value, Committed(h, s);
    var k := WholeWords(FrameCode(h), m.staged, |s.disk.wal| - m.walSize);
    assert s.disk.wal[..|s.disk.wal|] == s.disk.wal;
    CutState(h, s, |s.disk.wal|);
    LogNotShorter(h, log);
    ChkParts(h, |log|, MapRoot(h, m.table));
    if k == 0 { assert log + m.staged[..k] == log; }
  }

  /** A checkpoint taken at any reachable point, with staged operations or without, makes the
      next reopening fail exactly when no staged frame is whole in the file and the staged
      operations change the root. */
  lemma DirtyCheckpoint(h: Hash, r: Run, i: nat, closeSynced: bool, io: OpenIo)
    requires IsRun(h, r) && i < |r.states| && r.states[i].mem.Some?
    ensures var s := r.states[i]; var m := s.mem.value;
            var d := CloseDisk(CheckpointDisk(h, s.disk, m, true, true), closeSynced);
            && m.walSize <= |s.disk.wal|
            && (OpenResult(h, d, io) == CHK_MISMATCH <==>
                  && WholeWords(FrameCode(h), m.staged, |s.disk.wal| - m.walSize) == 0
                  && MapRoot(h, m.table) != MapRoot(h, Replay(map[], Committed(h, s))))
  {
    RunInv(h, r, i);
    CommittedInv(h, r.states[i]);
    DirtyState(h, r.states[i], closeSynced, io);
  }

  lemma FreshStore(h: Hash)
    ensures Recovered(h, []) == [] && WalOf(h, []) == HEADER && Recovered(h, HEADER) == []
    ensures HEADER[..|HEADER|] == HEADER && |HEADER| == 12
  {
    RecoveredLog(h, []);
  }

  /** A new store in which one put is staged and nothing is committed. */
  function OnePut(key: bytes, val: bytes): State
  {
    State(Disk(HEADER, 12, None), Some(Memory(map[key := val], [Put(key, val)], 0, 12)))
  }

  lemma OnePutReached(h: Hash, key: bytes, val: bytes, io: OpenIo)
    requires 1 <= |key| <= MAX_KEY_LEN && |val| <= MAX_VAL_LEN && io == OpenIo(12, true, true)
    ensures Step(h, Step(h, NEW, EvOpen(io)).1, EvPut(key, val)).1 == OnePut(key, val)
  {
    FreshStore(h);
    var m := Memory(map[], [], 0, 12);
    assert Step(h, NEW, EvOpen(io)).1 == State(Disk(HEADER, 12, None), Some(m));
    var op := Put(key, val);
    assert m.staged + [op] == [op] && m.table[key := val] == map[key := val];
    assert Stage(m, op) == Memory(map[key := val], [op], 0, 12);
  }

  /** The smallest such run: put without commit, checkpoint, close.  Reopening rejects the
      store, unless the hash collides on the two strings involved. */
  lemma DirtyCheckpointExample(h: Hash, key: bytes, val: bytes, io: OpenIo)
    requires 1 <= |key| <= MAX_KEY_LEN && |val| <= MAX_VAL_LEN && io == OpenIo(12, true, true)
    ensures var s := Step(h, Step(h, NEW, EvOpen(io)).1, EvPut(key, val)).1;
            var d := CloseDisk(CheckpointDisk(h, s.disk, s.mem.value, true, true), true);
            || OpenResult(h, d, io) == CHK_MISMATCH
            || CollisionIn(h, {EMPTY_TAG, LeafInput(Entry(key, val))})
  {
    OnePutReached(h, key, val, io);
    var s := OnePut(key, val);
    FreshStore(h);
    assert [] + [Put(key, val)] == [Put(key, val)];
    ReplaySnoc(map[], [], Put(key, val));
    WalOfConcat(h, [], [Put(key, val)]);
    assert OpenInv(h, HEADER, s.mem.value, []);
    DirtyState(h, s, true, io);
    OneEntry(h, key, val);
  }

  lemma OneEntry(h: Hash, key: bytes, val: bytes)
    ensures MapRoot(h, map[key := val]) == h(LeafInput(Entry(key, val)))
    ensures MapRoot(h, map[]) == h(EMPTY_TAG)
    ensures h(LeafInput(Entry(key, val))) == h(EMPTY_TAG) ==> CollisionIn(h, {EMPTY_TAG, LeafInput(Entry(key, val))})
  {
    var es := [Entry(key, val)];
    assert Contents(es) == Contents([])[key := val] == map[key := val];
    CanonicalForm(es, SortedEntries(map[key := val]));
    CanonicalForm([], SortedEntries(map[]));
    assert LeafInputs(es) == [LeafInput(es[0])];
    assert LeafInput(es[0])[0] == 0 && EMPTY_TAG[0] != 0;
  }
}
