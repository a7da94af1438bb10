/** Canonical RLP (Appendix B of the Ethereum Yellow Paper): the serialiser, the strict parser,
    and why each undoes the other. */
module Rlp {
  import opened Bytes
  import opened Seqs

  datatype Item = Str(b: bytes) | List(items: seq<Item>)

  datatype Code = Malformed | NonCanonical | UnsupportedType

  const MAX_LEN: nat := 0x1_0000_0000_0000_0000

  // ---------------------------------------------------------------- the serialiser

  /** The prefix of a payload of `n` bytes. */
  function EncHead(isList: bool, n: nat): (r: bytes)
    requires n < MAX_LEN
    ensures 1 <= |r| <= 9
  {
    SmallPowers();
    MinBELength(n, 8);
    var base := if isList then 0xC0 else 0x80;
    if n <= 55 then [base + n] else [base + 55 + |MinBE(n)|] + MinBE(n)
  }

  /** All payloads are below 2^64 bytes; beyond that the prefix cannot say their length. */
  predicate Fits(x: Item)
    decreases x, 0
  {
    match x
    case Str(b) => |b| < MAX_LEN
    case List(xs) => AllFit(xs) && |EncodeAll(xs)| < MAX_LEN
  }

  predicate AllFit(xs: seq<Item>)
    decreases xs, 0
  {
    xs == [] || (Fits(xs[0]) && AllFit(xs[1..]))
  }

  function Encode(x: Item): (r: bytes)
    requires Fits(x)
    ensures r != []
    decreases x, 1
  {
    match x
    case Str(b) => if |b| == 1 && b[0] < 0x80 then b else EncHead(false, |b|) + b
    case List(xs) => EncHead(true, |EncodeAll(xs)|) + EncodeAll(xs)
  }

  function EncodeAll(xs: seq<Item>): bytes
    requires AllFit(xs)
    decreases xs, 1
  {
    if xs == [] then [] else Encode(xs[0]) + EncodeAll(xs[1..])
  }

  // ---------------------------------------------------------------- the parser

  /** What the first byte and the length bytes behind it say: a byte on its own, or where a
      payload begins and ends. */
  datatype Head = Single(b: byte) | Payload(isList: bool, start: nat, end: nat) | HeadBad(code: Code)

  function ReadHead(data: bytes, off: nat): (r: Head)
    ensures r.Payload? ==> off < r.start <= r.end <= |data| && r.end - r.start < MAX_LEN
  {
    if off >= |data| then HeadBad(Malformed)
    else
      var b0 := data[off];
      if b0 < 0x80 then Single(b0)
      else if b0 <= 0xB7 then Short(data, off, false, b0 - 0x80)
      else if b0 < 0xC0 then Long(data, off, false, b0 - 0xB7)
      else if b0 <= 0xF7 then Short(data, off, true, b0 - 0xC0)
      else Long(data, off, true, b0 - 0xF7)
  }

  function Short(data: bytes, off: nat, isList: bool, n: nat): Head
  {
    if off + 1 + n > |data| then HeadBad(Malformed) else Payload(isList, off + 1, off + 1 + n)
  }

  function Long(data: bytes, off: nat, isList: bool, lenOfLen: nat): (r: Head)
    requires 1 <= lenOfLen <= 8
    ensures r.Payload? ==> r.isList == isList && off < r.start <= r.end <= |data| && r.end - r.start < MAX_LEN
  {
    if off + 1 + lenOfLen > |data| then HeadBad(Malformed)
    else
      var lenBytes := data[off + 1..off + 1 + lenOfLen];
      if lenBytes[0] == 0 then HeadBad(NonCanonical)
      else
        FromBEBounded(lenBytes);
        LenFits(lenOfLen);
        var n := FromBE(lenBytes);
        if n <= 55 then HeadBad(NonCanonical)
        else if off + 1 + lenOfLen + n > |data| then HeadBad(Malformed)
        else Payload(isList, off + 1 + lenOfLen, off + 1 + lenOfLen + n)
  }

  lemma {:induction false} LenFits(k: nat)
    requires k <= 8
    ensures Pow256(k) <= MAX_LEN
  {
    SmallPowers();
    assert Pow256(1) == 0x100 && Pow256(3) == 0x100_0000 && Pow256(5) == 0x100_0000_0000;
    assert Pow256(6) == 0x1_0000_0000_0000 && Pow256(7) == 0x100_0000_0000_0000;
  }

  datatype Parsed<+T> = Got(v: T, next: nat) | Bad(code: Code)

  /** Exactly one item at `off`, and where it ends. */
  function Parse(data: bytes, off: nat): (r: Parsed<Item>)
    ensures r.Got? ==> off < r.next <= |data|
    decreases |data| - off, 0
  {
    match ReadHead(data, off)
    case HeadBad(c) => Bad(c)
    case Single(b) => Got(Str([b]), off + 1)
    case Payload(isList, start, end) =>
      if isList then
        match ParseItems(data, start, end)
        case Bad(c) => Bad(c)
        case Got(xs, next) => Got(List(xs), end)
      else if end - start == 1 && data[start] < 0x80 then Bad(NonCanonical)
      else Got(Str(data[start..end]), end)
  }

  /** Items from `curr` on until `end` is reached or passed. */
  function ParseItems(data: bytes, curr: nat, end: nat): (r: Parsed<seq<Item>>)
    requires end <= |data|
    ensures r.Got? ==> r.next == end
    decreases |data| - curr, 1
  {
    if curr >= end then
      if curr == end then Got([], end) else Bad(Malformed)
    else
      match Parse(data, curr)
      case Bad(c) => Bad(c)
      case Got(x, next) =>
        match ParseItems(data, next, end)
        case Bad(c) => Bad(c)
        case Got(xs, e) => Got([x] + xs, e)
  }

  function Prepend(xs: seq<Item>, r: Parsed<seq<Item>>): Parsed<seq<Item>>
  {
    if r.Got? then Got(xs + r.v, r.next) else r
  }

  /** The parser as it runs: children are read in a loop that may only stop at the declared end. */
  method ParseRlp(data: bytes, offset: nat) returns (r: Parsed<Item>)
    ensures r == Parse(data, offset)
    decreases |data| - offset
  {
    var head := ReadHead(data, offset);
    match head {
      case HeadBad(c) => return Bad(c);
      case Single(b) => return Got(Str([b]), offset + 1);
      case Payload(isList, start, end) =>
        if !isList {
          if end - start == 1 && data[start] < 0x80 { return Bad(NonCanonical); }
          return Got(Str(data[start..end]), end);
        }
        var children := [];
        var curr := start;
        ghost var whole := ParseItems(data, start, end);
        assert Prepend([], whole) == whole by { if whole.Got? { assert [] + whole.v == whole.v; } }
        while curr < end
          invariant start <= curr
          invariant whole == Prepend(children, ParseItems(data, curr, end))
          decreases |data| - curr
        {
          var child := ParseRlp(data, curr);
          if child.Bad? { return Bad(child.code); }
          ghost var rest := ParseItems(data, child.next, end);
          if rest.Got? { Regroup(children, [child.v], rest.v); }
          children := children + [child.v];
          curr := child.next;
        }
        if curr != end { return Bad(Malformed); }
        assert children + [] == children;
        return Got(List(children), end);
    }
  }

  // ---------------------------------------------------------------- prefixes

  ghost predicate At(data: bytes, off: nat, e: bytes)
  {
    off + |e| <= |data| && data[off..off + |e|] == e
  }

  lemma AtConcat(data: bytes, off: nat, a: bytes, b: bytes)
    ensures At(data, off, a + b) <==> At(data, off, a) && At(data, off + |a|, b)
  {
    if At(data, off, a + b) {
      SliceConcat(data, off, a, b);
    }
    if At(data, off, a) && At(data, off + |a|, b) {
      JoinSlices(data, off, off + |a|, off + |a| + |b|);
    }
  }

  /** A prefix is read back exactly where it stands with all of its payload behind it. */
  lemma HeadExact(data: bytes, off: nat, isList: bool, n: nat, start: nat)
    requires n < MAX_LEN
    ensures ReadHead(data, off) == Payload(isList, start, start + n) <==>
      At(data, off, EncHead(isList, n)) && start == off + |EncHead(isList, n)| && start + n <= |data|
  {
    if n <= 55 {
      ShortExact(data, off, isList, n, start);
    } else {
      LongExact(data, off, isList, n, start);
    }
  }

  lemma ShortExact(data: bytes, off: nat, isList: bool, n: nat, start: nat)
    requires n <= 55
    ensures ReadHead(data, off) == Payload(isList, start, start + n) <==>
      At(data, off, EncHead(isList, n)) && start == off + |EncHead(isList, n)| && start + n <= |data|
  {
    hide MinBE;
    if off < |data| {
      assert data[off..off + 1] == [data[off]];
      LongIsLong(data, off, data[off]);
    }
  }

  lemma LongIsLong(data: bytes, off: nat, b0: byte)
    ensures 0xB7 < b0 < 0xC0 ==> var r := Long(data, off, false, b0 - 0xB7); r.Payload? ==> r.end - r.start > 55
    ensures 0xF7 < b0 ==> var r := Long(data, off, true, b0 - 0xF7); r.Payload? ==> r.end - r.start > 55
  {
  }

  lemma LongExact(data: bytes, off: nat, isList: bool, n: nat, start: nat)
    requires 55 < n < MAX_LEN
    ensures ReadHead(data, off) == Payload(isList, start, start + n) <==>
      At(data, off, EncHead(isList, n)) && start == off + |EncHead(isList, n)| && start + n <= |data|
  {
    hide MinBE, FromBE, Long;
    var len := MinBE(n);
    SmallPowers();
    MinBELength(n, 8);
    MinBERoundTrip(n);
    var base: nat := (if isList then 0xC0 else 0x80) + 55;
    var b: byte := base + |len|;
    AtConcat(data, off, [b], len);
    if off < |data| {
      assert data[off..off + 1] == [data[off]];
      if ReadHead(data, off) == Payload(isList, start, start + n) {
        LongLength(data, off, isList, data[off] - base, n, start);
      }
      if At(data, off, [b]) && At(data, off + 1, len) {
        LongReads(data, off, isList, n);
      }
    }
  }

  lemma LongReads(data: bytes, off: nat, isList: bool, n: nat)
    requires 55 < n < MAX_LEN && 1 <= |MinBE(n)| <= 8 && At(data, off + 1, MinBE(n))
    ensures var start := off + 1 + |MinBE(n)|;
            Long(data, off, isList, |MinBE(n)|) ==
              if start + n > |data| then HeadBad(Malformed) else Payload(isList, start, start + n)
  {
    MinBERoundTrip(n);
  }

  lemma LongLength(data: bytes, off: nat, isList: bool, lenOfLen: nat, n: nat, start: nat)
    requires 1 <= lenOfLen <= 8 && Long(data, off, isList, lenOfLen) == Payload(isList, start, start + n)
    ensures At(data, off + 1, MinBE(n)) && lenOfLen == |MinBE(n)|
  {
    var lenBytes := data[off + 1..off + 1 + lenOfLen];
    MinBEExact(lenBytes);
  }

  // ---------------------------------------------------------------- both are inverse

  /** Whatever the parser accepts, it accepts because the bytes are the serialisation of what it
      returns. */
  lemma {:induction false} ParseSound(data: bytes, off: nat)
    requires Parse(data, off).Got?
    ensures var r := Parse(data, off); Fits(r.v) && At(data, off, Encode(r.v)) && r.next == off + |Encode(r.v)|
    decreases |data| - off, 0
  {
    hide ReadHead, EncHead;
    var head := ReadHead(data, off);
    if head.Single? {
      SingleAt(data, off, head.b);
    } else {
      var n := head.end - head.start;
      HeadExact(data, off, head.isList, n, head.start);
      var payload := data[head.start..head.end];
      AtConcat(data, off, EncHead(head.isList, n), payload);
      if head.isList {
        ParseItemsSound(data, head.start, head.end);
      }
    }
  }

  lemma SingleAt(data: bytes, off: nat, b: byte)
    requires ReadHead(data, off) == Single(b)
    ensures b < 0x80 && At(data, off, [b])
  {
    assert data[off..off + 1] == [data[off]];
  }

  lemma {:induction false} ParseItemsSound(data: bytes, curr: nat, end: nat)
    requires end <= |data| && ParseItems(data, curr, end).Got?
    ensures var xs := ParseItems(data, curr, end).v; curr <= end && AllFit(xs) && data[curr..end] == EncodeAll(xs)
    decreases |data| - curr, 1
  {
    hide Parse, Encode, Fits;
    if curr < end {
      var x := Parse(data, curr);
      ParseSound(data, curr);
      ParseItemsSound(data, x.next, end);
      JoinSlices(data, curr, x.next, end);
      var xs := ParseItems(data, x.next, end).v;
      assert ([x.v] + xs)[1..] == xs;
    }
  }

  /** Every item is read back from its serialisation, whatever stands before and behind it. */
  lemma {:induction false} ParseComplete(data: bytes, off: nat, x: Item)
    requires Fits(x) && At(data, off, Encode(x))
    ensures Parse(data, off) == Got(x, off + |Encode(x)|)
    decreases x, 1
  {
    hide ReadHead, EncHead;
    match x {
      case Str(b) =>
        if |b| == 1 && b[0] < 0x80 {
          SingleRead(data, off, b[0]);
          assert b == [b[0]];
        } else {
          AtConcat(data, off, EncHead(false, |b|), b);
          HeadExact(data, off, false, |b|, off + |EncHead(false, |b|)|);
        }
      case List(xs) =>
        var p := EncodeAll(xs);
        var start := off + |EncHead(true, |p|)|;
        AtConcat(data, off, EncHead(true, |p|), p);
        HeadExact(data, off, true, |p|, start);
        ParseItemsComplete(data, start, xs);
    }
  }

  lemma SingleRead(data: bytes, off: nat, b: byte)
    requires b < 0x80 && At(data, off, [b])
    ensures ReadHead(data, off) == Single(b)
  {
    assert data[off..off + 1] == [data[off]];
  }

  lemma {:induction false} ParseItemsComplete(data: bytes, curr: nat, xs: seq<Item>)
    requires AllFit(xs) && At(data, curr, EncodeAll(xs))
    ensures ParseItems(data, curr, curr + |EncodeAll(xs)|) == Got(xs, curr + |EncodeAll(xs)|)
    decreases xs, 0
  {
    hide Parse, Encode, Fits, ParseItems;
    if xs == [] {
      NoItems(data, curr);
    } else {
      var e, tail := Encode(xs[0]), EncodeAll(xs[1..]);
      AtConcat(data, curr, e, tail);
      ParseComplete(data, curr, xs[0]);
      ParseItemsComplete(data, curr + |e|, xs[1..]);
      HeadTail(xs);
      ItemsStep(data, curr, curr + |e| + |tail|, xs[0], curr + |e|, xs[1..]);
    }
  }

  lemma NoItems(data: bytes, curr: nat)
    requires curr <= |data|
    ensures ParseItems(data, curr, curr) == Got([], curr)
  {
  }

  lemma ItemsStep(data: bytes, curr: nat, end: nat, x: Item, next: nat, xs: seq<Item>)
    requires curr < end <= |data| && Parse(data, curr) == Got(x, next) && ParseItems(data, next, end) == Got(xs, end)
    ensures ParseItems(data, curr, end) == Got([x] + xs, end)
  {
  }

  /** The parser accepts exactly the canonical serialisations, at every place of every string. */
  lemma ParseExact(data: bytes, off: nat, x: Item, next: nat)
    ensures Parse(data, off) == Got(x, next) <==> Fits(x) && At(data, off, Encode(x)) && next == off + |Encode(x)|
  {
    hide Parse;
    if Parse(data, off) == Got(x, next) {
      ParseSound(data, off);
    }
    if Fits(x) && At(data, off, Encode(x)) {
      ParseComplete(data, off, x);
    }
  }

  /** No serialisation is the beginning of another one. */
  lemma PrefixFree(x: Item, y: Item)
    requires Fits(x) && Fits(y) && Encode(x) <= Encode(y)
    ensures x == y
  {
    hide Encode, Fits, Parse;
    var data := Encode(y);
    assert data[0..|data|] == data;
    ParseExact(data, 0, x, |Encode(x)|);
    ParseExact(data, 0, y, |Encode(y)|);
  }

  // ---------------------------------------------------------------- integers

  /** A field read as an integer: no leading zero byte. */
  function ValidateInteger(b: bytes): Parsed<nat>
  {
    if b == [] then Got(0, 0) else if b[0] == 0 then Bad(NonCanonical) else Got(FromBE(b), 0)
  }

  /** The serialiser's treatment of integers: zero is the empty string. */
  function EncodeInteger(n: nat): bytes
    requires |MinBE(n)| < MAX_LEN
  {
    if n == 0 then [0x80] else Encode(Str(MinBE(n)))
  }

  /** A field is accepted exactly when it is the shortest form of the value it is read as. */
  lemma IntegerExact(b: bytes, n: nat)
    ensures ValidateInteger(b).Got? && ValidateInteger(b).v == n <==> b == MinBE(n)
  {
    MinBERoundTrip(n);
    if b == [] || b[0] != 0 {
      MinBEExact(b);
    }
  }

  /** A serialised integer is read back. */
  lemma IntegerRoundTrip(n: nat, off: nat, data: bytes)
    requires |MinBE(n)| < MAX_LEN && At(data, off, EncodeInteger(n))
    ensures var r := Parse(data, off); r.Got? && r.v.Str? && ValidateInteger(r.v.b) == Got(n, 0)
  {
    hide Parse;
    IntegerExact(MinBE(n), n);
    if n == 0 {
      assert Encode(Str([])) == [0x80];
    }
    ParseExact(data, off, Str(MinBE(n)), off + |EncodeInteger(n)|);
  }

  // ---------------------------------------------------------------- transaction envelopes

  datatype Envelope = Envelope(txType: nat, root: Item) | Refused(code: Code)

  /** The type byte of EIP-2718, one root list, and nothing behind it. */
  function Decode(raw: bytes): Envelope
  {
    if raw == [] then Refused(Malformed)
    else if 1 <= raw[0] <= 0x7F then
      if raw[0] > 4 then Refused(UnsupportedType) else DecodeRoot(raw[0], raw[1..])
    else if raw[0] >= 0xC0 then DecodeRoot(0, raw)
    else Refused(Malformed)
  }

  function DecodeRoot(txType: nat, payload: bytes): Envelope
  {
    match Parse(payload, 0)
    case Bad(c) => Refused(c)
    case Got(root, next) =>
      if next != |payload| || !root.List? then Refused(Malformed) else Envelope(txType, root)
  }

  /** The decoder as it runs.  It also serialises the parsed root again and compares. */
  method DecodeEnvelope(raw: bytes) returns (e: Envelope)
    ensures e == Decode(raw)
  {
    if |raw| == 0 { return Refused(Malformed); }
    var first := raw[0];
    var txType: nat := 0;
    var payload := raw;
    if 0x01 <= first <= 0x7F {
      txType := first;
      payload := raw[1..];
      if txType !in {1, 2, 3, 4} { return Refused(UnsupportedType); }
    } else if first < 0xC0 {
      return Refused(Malformed);
    }
    var root := ParseRlp(payload, 0);
    if root.Bad? { return Refused(root.code); }
    if root.next != |payload| { return Refused(Malformed); }
    if !root.v.List? { return Refused(Malformed); }
    ParseSound(payload, 0);
    assert payload[0..|payload|] == payload;
    var reserialized := Encode(root.v);
    assert reserialized == payload;  // so the comparison never fails
    return Envelope(txType, root.v);
  }

  function Wire(txType: nat, root: Item): bytes
    requires txType <= 4 && Fits(root)
  {
    (if txType == 0 then [] else [txType]) + Encode(root)
  }

  /** Exactly the serialised lists behind one of the known type bytes, or behind none, decode,
      and to what they are serialisations of. */
  lemma DecodeExact(raw: bytes, t: nat, x: Item)
    ensures Decode(raw) == Envelope(t, x) <==> t <= 4 && x.List? && Fits(x) && raw == Wire(t, x)
  {
    hide Fits, Parse, Encode;
    if Decode(raw) == Envelope(t, x) {
      if raw[0] <= 0x7F { HeadTail(raw); }
      RootExact(t, if t == 0 then raw else raw[1..], x);
    }
    if t <= 4 && x.List? && Fits(x) && raw == Wire(t, x) {
      ListPrefix(x);
      RootExact(t, Encode(x), x);
      if t == 0 {
        assert raw == Encode(x);
      } else {
        assert raw[1..] == Encode(x);
      }
    }
  }

  lemma RootExact(t: nat, payload: bytes, x: Item)
    ensures DecodeRoot(t, payload) == Envelope(t, x) <==> x.List? && Fits(x) && payload == Encode(x)
  {
    hide Fits, Parse, Encode;
    ParseExact(payload, 0, x, |payload|);
    assert payload[0..|payload|] == payload;
  }

  lemma ListPrefix(root: Item)
    requires root.List? && Fits(root)
    ensures Encode(root)[0] >= 0xC0
  {
  }
}
