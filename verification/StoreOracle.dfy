/** The independent Python oracle: its own replay loop and its own root loop. */
module StoreOracle {
  import opened Bytes
  import opened MemTable
  import opened StoreMerkle
  import opened Wal
  import opened StoreSpec
  import opened StoreC0

  datatype Verdict = Corrupt | Replayed(frames: nat, kvs: Table)

  /** One turn of the oracle's loop, with its checks in the order of the Python code. */
  method OracleFrame(h: Hash, data: bytes, start: nat) returns (r: Option<Op>, next: nat)
    requires start < |data|
    ensures match r case None => NoFrame(h, data, start) case Some(op) => FrameRead(h, data, start, op, next)
  {
    hide GoodBody, BodyOp, NoFrame, FrameRead;
    FrameMeaning(h, data, start);
    if start + 4 > |data| { return None, start; }
    var frameLen := FromLE(data[start..start + 4]);
    var offset := start + 4;
    if offset + frameLen > |data| { return None, start; }
    var body := data[offset..offset + frameLen];
    if frameLen < 39 { return None, start; }
    r := OracleBody(h, body);
    return r, offset + frameLen;
  }

  /** The oracle's checks on a complete frame body, in its own order and without wrap-around. */
  method OracleBody(h: Hash, body: bytes) returns (r: Option<Op>)
    requires 39 <= |body|
    ensures r.Some? <==> GoodBody(h, body)
    ensures r.Some? ==> r.value == BodyOp(h, body)
  {
    var op, klen, vlen := body[0], FromLE(body[1..3]), FromLE(body[3..7]);
    if 7 + klen + vlen + 32 != |body| { return None; }
    if klen == 0 || klen > MAX_KEY_LEN || vlen > MAX_VAL_LEN { return None; }
    if op != OP_PUT && op != OP_DEL { return None; }
    if op == OP_DEL && vlen != 0 { return None; }
    var key, val := body[7..7 + klen], body[7 + klen..7 + klen + vlen];
    var storedSum := body[7 + klen + vlen..7 + klen + vlen + 32];
    assert storedSum == body[7 + klen + vlen..];
    if h(body[..7 + klen + vlen]) != storedSum { return None; }
    return Some(if op == OP_PUT then Put(key, val) else Del(key));
  }

  ghost function Parsed(h: Hash, data: bytes): Verdict
  {
    if data != [] && !HasHeader(data) then Corrupt
    else Replayed(|Recovered(h, data)|, Replay(map[], Recovered(h, data)))
  }

  method ParseAndReplay(h: Hash, data: bytes) returns (v: Verdict)
    ensures v == Parsed(h, data)
  {
    if |data| == 0 { return Replayed(0, map[]); }
    if |data| < 12 { return Corrupt; }
    HeaderFields(data);
    if data[..4] != HEADER[..4] || FromLE(data[4..6]) != 1 || FromLE(data[6..10]) != 4096 || FromLE(data[10..12]) != 0 {
      return Corrupt;
    }
    var frames, kvs := OracleLoop(h, data);
    return Replayed(frames, kvs);
  }

  method OracleLoop(h: Hash, data: bytes) returns (frames: nat, kvs: Table)
    requires |data| >= 12
    ensures var log := DecodeWal(h, data, 12); frames == |log| && kvs == Replay(map[], log)
  {
    var offset := 12;
    frames, kvs := 0, map[];
    ghost var log: seq<Op> := [];
    ghost var all := DecodeWal(h, data, 12);
    assert all == log + DecodeWal(h, data, offset);
    while offset < |data|
      invariant 12 <= offset <= |data|
      invariant all == log + DecodeWal(h, data, offset)
      invariant kvs == Replay(map[], log) && frames == |log|
      decreases |data| - offset
    {
      var r, next := OracleFrame(h, data, offset);
      if r.None? { break; }
      RecordFrame(h, data, offset, r.value, next, log, all);
      match r.value {
        case Put(key, val) => kvs := kvs[key := val];
        case Del(key) => kvs := kvs - {key};
      }
      log := log + [r.value];
      offset, frames := next, frames + 1;
    }
    if offset == |data| { NoMoreFrames(h, data); }
    assert log == all;
  }

  // ---------------------------------------------------------------- the oracle's root

  /** Python's `sorted` over the keys of a dictionary, paired with the values. */
  method SortedItems(kvs: Table) returns (es: seq<Entry>)
    ensures es == SortedEntries(kvs) && Lists(es, kvs)
  {
    es := [];
    var done: Table := map[];
    var rest := kvs.Keys;
    while rest != {}
      invariant Sorted(es) && Contents(es) == done
      invariant rest !! done.Keys && rest + done.Keys == kvs.Keys
      invariant forall k :: k in done ==> done[k] == kvs[k]
      decreases rest
    {
      var k :| k in rest;
      var idx := 0;
      while idx < |es| && Less(es[idx].key, k)
        invariant 0 <= idx <= |es| && forall i :: 0 <= i < idx ==> Less(es[i].key, k)
      {
        idx := idx + 1;
      }
      InsertHere(es, k, idx);
      InsertContents(es, Entry(k, kvs[k]), idx);
      es := es[..idx] + [Entry(k, kvs[k])] + es[idx..];
      done := done[k := kvs[k]];
      rest := rest - {k};
    }
    assert done == kvs;
    CanonicalForm(es, SortedEntries(kvs));
    ListsSorted(es, kvs);
  }

  lemma InsertHere(es: seq<Entry>, k: bytes, idx: nat)
    requires Sorted(es) && k !in Contents(es) && idx <= |es|
    requires forall i :: 0 <= i < idx ==> Less(es[i].key, k)
    requires idx < |es| ==> !Less(es[idx].key, k)
    ensures Position(es, k, idx, false)
  {
    if idx < |es| {
      ContentsAt(es, idx);
      CompareDecidesOrder(es[idx].key, k);
      forall i | idx < i < |es| ensures Less(k, es[i].key) {
        LessTransitive(k, es[idx].key, es[i].key);
      }
    }
  }

  /** One turn of the oracle's level loop; `inputs` are what the digests came from. */
  method NextLevel(h: Hash, level: seq<Digest>, ghost inputs: seq<bytes>) returns (next: seq<Digest>)
    requires |inputs| == |level| && forall j :: 0 <= j < |level| ==> level[j] == h(inputs[j])
    ensures |next| == |Parents(h, inputs)| && forall j :: 0 <= j < |next| ==> next[j] == h(Parents(h, inputs)[j])
  {
    next := [];
    ghost var up := Parents(h, inputs);
    for p := 0 to (|level| + 1) / 2
      invariant |next| == p
      invariant forall j :: 0 <= j < p ==> next[j] == h(up[j])
    {
      var i := 2 * p;
      var left := level[i];
      var right := if i + 1 < |level| then level[i + 1] else level[i];
      next := next + [h(NodeInput(left, right))];
    }
  }

  lemma EmptyOnly(m: Table)
    ensures m == map[] <==> SortedEntries(m) == []
  {
    if SortedEntries(m) == [] { assert Contents([]) == map[]; }
  }

  method OracleRoot(h: Hash, kvs: Table) returns (root: Digest)
    ensures root == MapRoot(h, kvs)
  {
    EmptyOnly(kvs);
    if kvs == map[] { return h(EMPTY_TAG); }
    var items := SortedItems(kvs);
    var level := seq(|items|, i requires 0 <= i < |items| => h(LeafInput(items[i])));
    ghost var inputs := LeafInputs(items);
    while |level| > 1
      invariant inputs != [] && |inputs| == |level|
      invariant forall j :: 0 <= j < |level| ==> level[j] == h(inputs[j])
      invariant Top(h, inputs) == Top(h, LeafInputs(items))
      decreases |level|
    {
      level := NextLevel(h, level, inputs);
      inputs := Parents(h, inputs);
    }
    return level[0];
  }

  // ---------------------------------------------------------------- agreement

  /** What a program says about a log file. */
  datatype Report = Refused | Accepted(frames: nat, kvs: Table, root: Digest)

  /** The C store on a disk that holds this log file and no checkpoint. */
  ghost function StoreReport(h: Hash, data: bytes): Report
  {
    var d := Disk.Disk(data, 0, None);
    if OpenResult(h, d, OpenIo(|HEADER|, true, true)) != OK then Refused
    else
      var m := OpenMemory(h, d);
      Accepted(m.frameCount, m.table, MapRoot(h, m.table))
  }

  ghost function OracleReport(h: Hash, data: bytes): Report
  {
    match Parsed(h, data)
    case Corrupt => Refused
    case Replayed(frames, kvs) => Accepted(frames, kvs, MapRoot(h, kvs))
  }

  /** Runs the C recovery and the oracle on the same file and returns everything both of them
      report.  They agree on every byte string whatsoever. */
  method CrossCheck(h: Hash, data: bytes) returns (res: Result, ours: Report, theirs: Report)
    ensures ours == StoreReport(h, data) && theirs == OracleReport(h, data)
    ensures ours == theirs
    ensures res == if ours.Refused? then CORRUPT else OK
  {
    var files := new Files();
    files.wal := data;
    var store := new Store(h, files);
    res := store.Recover(OpenIo(|HEADER|, true, true));
    ours, theirs := Refused, Refused;
    if res == OK {
      var root := store.MerkleRoot();
      ours := Accepted(store.frameCount, Contents(store.memtable.entries), root);
    }
    var verdict := ParseAndReplay(h, data);
    if verdict.Replayed? {
      var root := OracleRoot(h, verdict.kvs);
      theirs := Accepted(verdict.frames, verdict.kvs, root);
    }
  }

  // ---------------------------------------------------------------- checkpoint files

  datatype Seen = BadFile | Checkpoint(frames: nat, root: Digest)

  /** The oracle's reader of a checkpoint file accepts exactly the files that a checkpoint
      writes, and reads off what was written. */
  method ReadCheckpoint(h: Hash, raw: bytes) returns (r: Seen)
    ensures forall frames: nat, root: Digest :: frames < 0x1_0000_0000_0000_0000 ==>
              (r == Checkpoint(frames, root) <==> raw == ChkFile(h, frames, root))
    ensures r.Checkpoint? <==> ChkAccepted(h, raw)
    ensures r.Checkpoint? ==> r.frames < 0x1_0000_0000_0000_0000
  {
    hide ChkFile;
    forall frames: nat, root: Digest | frames < 0x1_0000_0000_0000_0000 && raw == ChkFile(h, frames, root)
      ensures ChkAccepted(h, raw) && FromLE(raw[8..16]) == frames && raw[16..48] == root
    {
      ChkParts(h, frames, root);
    }
    if |raw| != 80 { return BadFile; }
    if raw[..6] != CHK_MAGIC || FromLE(raw[6..8]) != 1 { return BadFile; }
    if h(raw[..48]) != raw[48..80] { return BadFile; }
    ChkReadBack(h, raw);
    return Checkpoint(FromLE(raw[8..16]), raw[16..48]);
  }

  lemma ChkReadBack(h: Hash, raw: bytes)
    requires ChkAccepted(h, raw)
    ensures FromLE(raw[8..16]) < 0x1_0000_0000_0000_0000 && raw == ChkFile(h, FromLE(raw[8..16]), raw[16..48])
  {
    hide FromLE, LE, Pow256;
    SmallPowers();
    FromLERoundTrip(raw[6..8]);
    FromLERoundTrip(raw[8..16]);
    assert raw[..48] == raw[..6] + (raw[6..8] + (raw[8..16] + raw[16..48]));
    assert raw == raw[..48] + raw[48..80];
  }

  /** Both programs mean the same by a checkpoint: reopening is refused exactly when the oracle
      reads the recovered frame count and another root off the file. */
  lemma CheckpointsAgree(h: Hash, raw: bytes, frames: nat, root: Digest, other: Digest)
    requires frames < 0x1_0000_0000_0000_0000 && raw == ChkFile(h, frames, root)
    ensures ChkResult(h, Some(raw), frames, other) == CHK_MISMATCH <==> root != other
  {
    ChkParts(h, frames, root);
  }
}
