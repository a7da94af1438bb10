/** Host regions: byte payloads packed into 64-bit cells, and the read-only intrinsics. */
module Region {
  import opened Bytes
  import opened Seqs
  import opened Int64

  const MAX_REGIONS: nat := 64
  const MAX_CELLS: nat := 2048
  const MAX_INPUT_BYTES: nat := 16384
  const CELL_BYTES: nat := 8

  datatype RegionErr = ROk | RInvalid | RBounds | RTruncated | ROverflow | RAbi
  {
    function Code(): i64
    {
      match this
      case ROk => 0 case RInvalid => 1 case RBounds => 2
      case RTruncated => 3 case ROverflow => 4 case RAbi => 5
    }
  }

  /** What a region looks like to a reader: its cells and the length of its payload. */
  datatype RegionView = RegionView(id: nat, cells: seq<i64>, payloadLen: nat)

  predicate StructValid(r: RegionView)
  {
    && |r.cells| <= MAX_CELLS
    && r.payloadLen <= |r.cells| * CELL_BYTES
    && r.payloadLen <= MAX_INPUT_BYTES
  }

  function CapacityBytes(r: RegionView): nat { |r.cells| * CELL_BYTES }

  /** All bytes of the cells, little-endian, cell after cell. */
  function CellBytes(cells: seq<i64>): (b: bytes)
    ensures |b| == |cells| * CELL_BYTES
  {
    if cells == [] then [] else LE(ToU64(cells[0]), 8) + CellBytes(cells[1..])
  }

  /** The logical message of a region. */
  function Payload(r: RegionView): bytes
    requires r.payloadLen <= |r.cells| * CELL_BYTES
  {
    CellBytes(r.cells)[..r.payloadLen]
  }

  // ---------------------------------------------------------------- reading

  function ByteOf(cell: i64, k: nat): byte
  {
    (ToU64(cell) / Pow256(k)) % 256
  }

  lemma {:induction false} LEIndex(v: nat, width: nat, k: nat)
    requires k < width
    ensures LE(v, width)[k] == (v / Pow256(k)) % 256
    decreases width
  {
    if k > 0 {
      LEIndex(v / 256, width - 1, k - 1);
      DivDiv(v, Pow256(k - 1));
    }
  }

  lemma DivDiv(v: nat, p: nat)
    requires p >= 1
    ensures v / 256 / p == v / (256 * p)
  {
    var q := v / 256;
    var r := v % 256;
    var s, t := q / p, q % p;
    assert v == 256 * q + r && q == p * s + t && 0 <= t < p;
    assert v == (256 * p) * s + (256 * t + r);
    assert 0 <= 256 * t + r < 256 * p;
    QuotientIs(v, 256 * p, s, 256 * t + r);
  }

  lemma CellByteIndex(cells: seq<i64>, i: nat)
    requires i < |cells| * CELL_BYTES
    ensures CellBytes(cells)[i] == ByteOf(cells[i / 8], i % 8)
  {
    hide CellBytes, LE, FromLE;
    CellBytesAt(cells, i / 8, i % 8);
    LEIndex(ToU64(cells[i / 8]), 8, i % 8);
  }

  /** Reads one byte of the payload. */
  function LoadByte(r: RegionView, i: nat): (RegionErr, byte)
  {
    if !StructValid(r) then (RAbi, 0)
    else if i >= CapacityBytes(r) then (RBounds, 0)
    else if i >= r.payloadLen then (RTruncated, 0)
    else if i / 8 >= |r.cells| then (RBounds, 0)
    else (ROk, ByteOf(r.cells[i / 8], i % 8))
  }

  /** A load succeeds exactly inside the payload, and then gives the payload's byte. */
  lemma LoadByteReadsPayload(r: RegionView, i: nat)
    requires StructValid(r)
    ensures LoadByte(r, i).0 == ROk <==> i < r.payloadLen
    ensures i < r.payloadLen ==> LoadByte(r, i).1 == Payload(r)[i]
  {
    if i < r.payloadLen { CellByteIndex(r.cells, i); }
  }

  /** The range test, with the subtraction done in 64 bits. */
  function CheckRange(r: RegionView, offset: u64, len: u64): RegionErr
  {
    if !StructValid(r) then RAbi
    else if offset > r.payloadLen then RTruncated
    else if len > (r.payloadLen - offset) % TWO64 then RTruncated
    else ROk
  }

  /** A range passes exactly when it lies within the payload as a range of integers. */
  lemma CheckRangeExact(r: RegionView, offset: u64, len: u64)
    requires StructValid(r)
    ensures CheckRange(r, offset, len) == ROk <==> offset + len <= r.payloadLen
    ensures CheckRange(r, offset, len) == ROk ==>
              forall i :: offset <= i < offset + len ==> LoadByte(r, i).0 == ROk
  {
  }

  // ---------------------------------------------------------------- region sets

  type RegionSet = seq<RegionView>

  function Get(set_: RegionSet, id: i64): (r: (RegionErr, int))
    ensures r.0 == ROk <==> 0 <= id < |set_| && set_[id].id == id && StructValid(set_[id])
    ensures r.0 == ROk ==> r.1 == id
  {
    if id < 0 then (RInvalid, -1)
    else if id >= |set_| then (RInvalid, -1)
    else if set_[id].id != id then (RAbi, -1)
    else if !StructValid(set_[id]) then (RAbi, -1)
    else (ROk, id)
  }

  // ---------------------------------------------------------------- writing

  class Region {
    const id: nat
    const cells: array<i64>
    var payloadLen: nat

    function View(): RegionView
      reads this, cells
    {
      RegionView(id, cells[..], payloadLen)
    }

    constructor (id: nat, cells: array<i64>, payloadLen: nat)
      ensures this.id == id && this.cells == cells && this.payloadLen == payloadLen
    {
      this.id, this.cells, this.payloadLen := id, cells, payloadLen;
    }

    /** Replaces the payload.  A failing write changes nothing. */
    method WriteBytes(src: bytes) returns (err: RegionErr)
      modifies this, cells
      ensures err == if !StructValid(old(View())) then RAbi
                     else if |src| > MAX_INPUT_BYTES then RBounds
                     else if |src| > CapacityBytes(old(View())) then RTruncated
                     else ROk
      ensures err != ROk ==> View() == old(View())
      ensures err == ROk ==> StructValid(View()) && Payload(View()) == src
      ensures err == ROk ==> forall i :: |src| <= i < cells.Length * 8 ==> CellBytes(cells[..])[i] == 0
    {
      hide CellBytes, LE, FromLE, Chunk, Bitwise, Pow256;
      if !StructValid(View()) { return RAbi; }
      if |src| > MAX_INPUT_BYTES { return RBounds; }
      if |src| > cells.Length * 8 { return RTruncated; }
      Clear();
      NoChunks(src);
      for i := 0 to |src|
        modifies cells
        invariant forall c :: 0 <= c < cells.Length ==> ToU64(cells[c]) == FromLE(Chunk(src, c, i))
      {
        var c, k := i / 8, i % 8;
        var word := ToU64(cells[c]);
        SetByte(src, i);
        word := Bitwise(Or, word, ShiftedByte(src[i], k), 64);
        OtherChunks(src, i);
        cells[c] := FromU64(word);
      }
      payloadLen := |src|;
      CellsHold(cells[..], src);
      assert Payload(View()) == src;
      return ROk;
    }

    method Clear()
      modifies cells
      ensures forall i :: 0 <= i < cells.Length ==> cells[i] == 0
    {
      for i := 0 to cells.Length
        invariant forall j :: 0 <= j < i ==> cells[j] == 0
      {
        cells[i] := 0;
      }
    }
  }

  // ---------------------------------------------------------------- why the cells hold the bytes

  /** The part of the first `n` bytes of `src` that falls into cell `c`. */
  function Chunk(src: bytes, c: nat, n: nat): bytes
    requires n <= |src|
  {
    if 8 * c >= n then [] else if 8 * c + 8 <= n then src[8 * c..8 * c + 8] else src[8 * c..n]
  }

  lemma {:induction false} PowersAgree(k: nat)
    ensures Pow256(k) == Pow2(8 * k)
  {
    if k > 0 {
      PowersAgree(k - 1);
      var e := 8 * k - 8;
      assert Pow2(e + 8) == 256 * Pow2(e) by {
        assert Pow2(e + 2) == 4 * Pow2(e);
        assert Pow2(e + 4) == 16 * Pow2(e);
        assert Pow2(e + 6) == 64 * Pow2(e);
      }
    }
  }

  lemma NoChunks(src: bytes)
    ensures forall c: nat :: FromLE(Chunk(src, c, 0)) == 0
  {
  }

  lemma OtherChunks(src: bytes, i: nat)
    requires i < |src|
    ensures forall c: nat :: c != i / 8 ==> Chunk(src, c, i + 1) == Chunk(src, c, i)
  {
  }

  /** One bitwise-or puts the next byte into its cell. */
  lemma SetByte(src: bytes, i: nat)
    requires i < |src|
    ensures var c, k := i / 8, i % 8;
            var word := FromLE(Chunk(src, c, i));
            && word + ShiftedByte(src[i], k) < TWO64
            && Bitwise(Or, word, ShiftedByte(src[i], k), 64) == word + ShiftedByte(src[i], k)
               == FromLE(Chunk(src, c, i + 1))
  {
    var c := i / 8;
    var s := Chunk(src, c, i);
    ChunkGrows(src, i);
    OrStep(s, src[i]);
  }

  lemma ChunkGrows(src: bytes, i: nat)
    requires i < |src|
    ensures |Chunk(src, i / 8, i)| == i % 8
    ensures Chunk(src, i / 8, i + 1) == Chunk(src, i / 8, i) + [src[i]]
  {
    TakeSnoc(src[8 * (i / 8)..], i % 8);
  }

  /** A byte moved up by `k` byte positions. */
  function ShiftedByte(b: byte, k: nat): nat
  {
    MulMonotone(0, b, Pow256(k));
    b * Pow256(k)
  }

  lemma OrStep(s: bytes, b: byte)
    requires |s| < 8
    ensures FromLE(s) + b * Pow256(|s|) < TWO64
    ensures Bitwise(Or, FromLE(s), b * Pow256(|s|), 64) == FromLE(s) + b * Pow256(|s|) == FromLE(s + [b])
  {
    hide Bitwise, FromLE, LE, LowClear, Pow2, Pow256;
    var k := |s|;
    FromLESnoc(s, b);
    FromLERoundTrip(s);
    FromLERoundTrip(s + [b]);
    WordBound(k + 1);
    PowersAgree(k);
    MulLowClear(b, 8 * k);
    Pow2Of64();
    OrOfParts(FromLE(s), b * Pow256(k), 8 * k);
  }

  lemma OrOfParts(a: nat, c: nat, k: nat)
    requires a < Pow2(k) && k <= 64 && LowClear(c, k) && a + c < TWO64
    ensures Bitwise(Or, a, c, 64) == a + c
  {
    hide Bitwise, LowClear, Pow2;
    Pow2Of64();
    OrIsAdd(a, c, k, 64);
  }

  lemma WordBound(k: nat)
    requires k <= 8
    ensures Pow256(k) <= TWO64
  {
    SmallPowers();
    if k < 8 { PowGrows(k, 8); }
  }

  lemma {:induction false} PowGrows(a: nat, b: nat)
    requires a <= b
    ensures Pow256(a) <= Pow256(b)
  {
    if a < b { PowGrows(a, b - 1); }
  }

  /** Short little-endian numbers are padded with zero bytes. */
  lemma {:induction false} LEPad(s: bytes, width: nat, k: nat)
    requires |s| <= width && k < width
    ensures LE(FromLE(s), width)[k] == if k < |s| then s[k] else 0
  {
    if s == [] {
      LEZero(width, k);
    } else {
      var rest := FromLE(s[1..]);
      DigitSplit(s[0], rest);
      if k > 0 { LEPad(s[1..], width - 1, k - 1); }
    }
  }

  lemma {:induction false} LEZero(width: nat, k: nat)
    requires k < width
    ensures LE(0, width)[k] == 0
  {
    if k > 0 { LEZero(width - 1, k - 1); }
  }

  lemma {:induction false} CellBytesAt(cells: seq<i64>, c: nat, k: nat)
    requires c < |cells| && k < 8
    ensures CellBytes(cells)[8 * c + k] == LE(ToU64(cells[c]), 8)[k]
  {
    if c > 0 { CellBytesAt(cells[1..], c - 1, k); }
  }

  lemma CellHolds(cells: seq<i64>, src: bytes, c: nat, k: nat)
    requires |src| <= |cells| * 8 && c < |cells| && k < 8
    requires ToU64(cells[c]) == FromLE(Chunk(src, c, |src|))
    ensures CellBytes(cells)[8 * c + k] == if 8 * c + k < |src| then src[8 * c + k] else 0
  {
    hide CellBytes, LE, FromLE;
    CellBytesAt(cells, c, k);
    LEPad(Chunk(src, c, |src|), 8, k);
  }

  lemma CellsHold(cells: seq<i64>, src: bytes)
    requires |src| <= |cells| * 8
    requires forall c :: 0 <= c < |cells| ==> ToU64(cells[c]) == FromLE(Chunk(src, c, |src|))
    ensures forall i :: 0 <= i < |cells| * 8 ==> CellBytes(cells)[i] == if i < |src| then src[i] else 0
  {
    hide CellBytes, LE, FromLE, Chunk;
    forall i | 0 <= i < |cells| * 8 ensures CellBytes(cells)[i] == if i < |src| then src[i] else 0 {
      CellHolds(cells, src, i / 8, i % 8);
    }
  }
}
