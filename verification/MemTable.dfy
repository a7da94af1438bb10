/** The sorted in-memory table of the store: key order, binary search, insertion, removal. */
module MemTable {
  import opened Bytes
  import opened Seqs

  type Table = map<bytes, bytes>

  datatype Entry = Entry(key: bytes, val: bytes)

  // ---------------------------------------------------------------- key order

  /** The C library comparison of two blocks of equal length. */
  function MemCmp(a: bytes, b: bytes): int
    requires |a| == |b|
  {
    if a == [] then 0
    else if a[0] != b[0] then a[0] - b[0]
    else MemCmp(a[1..], b[1..])
  }

  function KeyCompare(a: bytes, b: bytes): int
  {
    var n := if |a| < |b| then |a| else |b|;
    var c := MemCmp(a[..n], b[..n]);
    if c != 0 then c else if |a| < |b| then -1 else if |a| > |b| then 1 else 0
  }

  /** Byte-wise lexicographic order, the order Python gives to `bytes`. */
  predicate Less(a: bytes, b: bytes)
  {
    b != [] && (a == [] || a[0] < b[0] || (a[0] == b[0] && Less(a[1..], b[1..])))
  }

  lemma {:induction false} LessIrreflexive(a: bytes)
    ensures !Less(a, a)
  {
    if a != [] { LessIrreflexive(a[1..]); }
  }

  lemma {:induction false} LessTransitive(a: bytes, b: bytes, c: bytes)
    requires Less(a, b) && Less(b, c)
    ensures Less(a, c)
  {
    if a != [] && a[0] == b[0] == c[0] {
      LessTransitive(a[1..], b[1..], c[1..]);
    }
  }

  /** The comparison used by the binary search decides the lexicographic order. */
  lemma {:induction false} CompareDecidesOrder(a: bytes, b: bytes)
    ensures KeyCompare(a, b) < 0 <==> Less(a, b)
    ensures KeyCompare(a, b) == 0 <==> a == b
    ensures KeyCompare(a, b) > 0 <==> Less(b, a)
  {
    if a != [] && b != [] {
      CompareDecidesOrder(a[1..], b[1..]);
      var n := if |a| < |b| then |a| else |b|;
      assert a[..n][1..] == a[1..][..n - 1];
      assert b[..n][1..] == b[1..][..n - 1];
      assert a == [a[0]] + a[1..] && b == [b[0]] + b[1..];
    }
  }

  /** The strings agree up to position `k` and differ there. */
  ghost predicate DifferAt(a: bytes, b: bytes, k: nat)
  {
    k < |a| && k < |b| && a[..k] == b[..k] && a[k] != b[k]
  }

  /** `a` is a proper beginning of `b`, or has the smaller byte where they first differ. */
  ghost predicate Before(a: bytes, b: bytes)
  {
    (|a| < |b| && a == b[..|a|]) || exists k: nat :: DifferAt(a, b, k) && a[k] < b[k]
  }

  lemma SameBelow(a: bytes, b: bytes, k: nat, i: nat)
    requires DifferAt(a, b, k) && i < k
    ensures a[i] == b[i]
  {
    assert a[..k][i] == b[..k][i];
  }

  lemma BeforeTail(a: bytes, b: bytes)
    requires a != [] && b != [] && a[0] == b[0]
    ensures Before(a, b) <==> Before(a[1..], b[1..])
  {
    HeadTail(a);
    HeadTail(b);
    if Before(a, b) {
      if |a| < |b| && a == b[..|a|] {
        assert a[1..] == b[1..][..|a[1..]|];
      } else {
        var k: nat :| DifferAt(a, b, k) && a[k] < b[k];
        assert k > 0 && a[1..][..k - 1] == a[..k][1..] == b[..k][1..] == b[1..][..k - 1];
        assert DifferAt(a[1..], b[1..], k - 1);
      }
    }
    if Before(a[1..], b[1..]) {
      var x, y := a[1..], b[1..];
      if |x| < |y| && x == y[..|x|] {
        assert b[..|a|] == [b[0]] + y[..|x|];
      } else {
        var k: nat :| DifferAt(x, y, k) && x[k] < y[k];
        assert a[..k + 1] == [a[0]] + x[..k] == [b[0]] + y[..k] == b[..k + 1];
        assert DifferAt(a, b, k + 1);
      }
    }
  }

  /** The recursive order is that one. */
  lemma {:induction false} LessIsBefore(a: bytes, b: bytes)
    ensures Less(a, b) <==> Before(a, b)
  {
    if a == [] {
      assert b != [] ==> b[..0] == a;
    } else if b != [] {
      if a[0] == b[0] {
        LessIsBefore(a[1..], b[1..]);
        BeforeTail(a, b);
      } else {
        assert a[..0] == b[..0] && DifferAt(a, b, 0);
        forall k: nat | DifferAt(a, b, k) ensures k == 0 {
          if k > 0 { SameBelow(a, b, k, 0); }
        }
        if |a| < |b| { assert b[..|a|][0] == b[0]; }
      }
    }
  }

  /** What the sign of the comparison says about the bytes of the two keys. */
  lemma CompareMeans(a: bytes, b: bytes)
    ensures KeyCompare(a, b) < 0 <==> Before(a, b)
    ensures KeyCompare(a, b) == 0 <==> a == b
    ensures KeyCompare(a, b) > 0 <==> Before(b, a)
  {
    CompareDecidesOrder(a, b);
    LessIsBefore(a, b);
    LessIsBefore(b, a);
  }

  // ---------------------------------------------------------------- sorted tables

  ghost predicate Sorted(es: seq<Entry>)
  {
    forall i, j :: 0 <= i < j < |es| ==> Less(es[i].key, es[j].key)
  }

  /** The finite map that a sequence of entries stands for. */
  function Contents(es: seq<Entry>): Table
  {
    if es == [] then map[]
    else Contents(es[..|es| - 1])[es[|es| - 1].key := es[|es| - 1].val]
  }

  lemma DistinctKeys(es: seq<Entry>, i: nat, j: nat)
    requires Sorted(es) && i < |es| && j < |es|
    requires es[i].key == es[j].key
    ensures i == j
  {
    LessIrreflexive(es[i].key);
  }

  lemma {:induction false} ContentsSound(es: seq<Entry>, k: bytes) returns (i: nat)
    requires k in Contents(es)
    ensures i < |es| && es[i].key == k && Contents(es)[k] == es[i].val
  {
    var n := |es| - 1;
    if es[n].key == k {
      i := n;
    } else {
      i := ContentsSound(es[..n], k);
    }
  }

  lemma {:induction false} ContentsAt(es: seq<Entry>, i: nat)
    requires Sorted(es) && i < |es|
    ensures es[i].key in Contents(es) && Contents(es)[es[i].key] == es[i].val
  {
    var n := |es| - 1;
    if i < n {
      ContentsAt(es[..n], i);
      if es[i].key == es[n].key { DistinctKeys(es, i, n); }
    }
  }

  /** A sorted table is determined by its contents: the canonical form of a map. */
  lemma {:induction false} CanonicalForm(a: seq<Entry>, b: seq<Entry>)
    requires Sorted(a) && Sorted(b) && Contents(a) == Contents(b)
    ensures a == b
  {
    hide Sorted, Contents;
    NoContents(a);
    NoContents(b);
    if a != [] && b != [] {
      SameHead(a, b);
      DropHead(a);
      DropHead(b);
      CanonicalForm(a[1..], b[1..]);
      HeadTail(a);
      HeadTail(b);
    }
  }

  lemma NoContents(es: seq<Entry>)
    requires Sorted(es)
    ensures Contents(es) == map[] <==> es == []
  {
    if es != [] { ContentsAt(es, 0); }
  }

  lemma DropHead(es: seq<Entry>)
    requires Sorted(es) && es != []
    ensures Sorted(es[1..]) && Contents(es[1..]) == Contents(es) - {es[0].key}
  {
    hide Contents;
    assert es[1..] == es[..0] + es[1..];
    RemoveContents(es, 0);
  }

  lemma SameHead(a: seq<Entry>, b: seq<Entry>)
    requires Sorted(a) && Sorted(b) && Contents(a) == Contents(b)
    requires a != [] && b != []
    ensures a[0] == b[0]
  {
    ContentsAt(a, 0);
    ContentsAt(b, 0);
    var i := ContentsSound(b, a[0].key);
    var j := ContentsSound(a, b[0].key);
    if i > 0 && j > 0 {
      LessTransitive(a[0].key, a[j].key, b[i].key);
      LessIrreflexive(a[0].key);
    }
    assert a[0].key == b[0].key && a[0].val == b[0].val;
  }

  /** `idx` is where `key` is, or where it has to be inserted. */
  ghost predicate Position(es: seq<Entry>, key: bytes, idx: nat, found: bool)
  {
    && idx <= |es|
    && (forall i :: 0 <= i < idx ==> Less(es[i].key, key))
    && (found ==> idx < |es| && es[idx].key == key)
    && (!found ==> forall i :: idx <= i < |es| ==> Less(key, es[i].key))
  }

  lemma PositionFound(es: seq<Entry>, key: bytes, idx: nat, found: bool)
    requires Sorted(es) && Position(es, key, idx, found)
    ensures found <==> key in Contents(es)
    ensures found ==> Contents(es)[key] == es[idx].val
  {
    if found { ContentsAt(es, idx); }
    if !found && key in Contents(es) {
      var i := ContentsSound(es, key);
      LessIrreflexive(key);
    }
  }

  lemma InsertContents(es: seq<Entry>, e: Entry, idx: nat)
    requires Sorted(es) && Position(es, e.key, idx, false)
    ensures var r := es[..idx] + [e] + es[idx..];
            Sorted(r) && Contents(r) == Contents(es)[e.key := e.val]
  {
    hide Contents, Less;
    var r := es[..idx] + [e] + es[idx..];
    assert Sorted(r) by {
      forall i, j | 0 <= i < j < |r| ensures Less(r[i].key, r[j].key) {
        if i < idx && j > idx { LessTransitive(r[i].key, e.key, r[j].key); }
      }
    }
    forall k ensures k in Contents(r) <==> k in Contents(es) || k == e.key
             ensures k in Contents(r) ==> Contents(r)[k] == Contents(es)[e.key := e.val][k] {
      ContentsAt(r, idx);
      if k in Contents(r) && k != e.key {
        var i := ContentsSound(r, k);
        ContentsAt(es, if i < idx then i else i - 1);
      }
      if k in Contents(es) && k != e.key {
        var i := ContentsSound(es, k);
        ContentsAt(r, if i < idx then i else i + 1);
      }
    }
  }

  lemma UpdateContents(es: seq<Entry>, idx: nat, val: bytes)
    requires Sorted(es) && idx < |es|
    ensures var r := es[idx := Entry(es[idx].key, val)];
            Sorted(r) && Contents(r) == Contents(es)[es[idx].key := val]
  {
    hide Contents, Less;
    var r := es[idx := Entry(es[idx].key, val)];
    assert forall i :: 0 <= i < |es| ==> r[i].key == es[i].key;
    forall k ensures k in Contents(r) <==> k in Contents(es)
             ensures k in Contents(r) ==> Contents(r)[k] == Contents(es)[es[idx].key := val][k] {
      if k in Contents(r) {
        var i := ContentsSound(r, k);
        ContentsAt(es, i);
        if k == es[idx].key { DistinctKeys(es, i, idx); }
      }
      if k in Contents(es) {
        var i := ContentsSound(es, k);
        ContentsAt(r, i);
      }
    }
    ContentsAt(es, idx);
  }

  lemma RemoveContents(es: seq<Entry>, idx: nat)
    requires Sorted(es) && idx < |es|
    ensures var r := es[..idx] + es[idx + 1..];
            Sorted(r) && Contents(r) == Contents(es) - {es[idx].key}
  {
    hide Contents, Less;
    var r := es[..idx] + es[idx + 1..];
    assert forall i :: 0 <= i < |r| ==> r[i] == es[if i < idx then i else i + 1];
    assert Sorted(r);
    forall k ensures k in Contents(r) <==> k in Contents(es) && k != es[idx].key
             ensures k in Contents(r) ==> Contents(r)[k] == Contents(es)[k] {
      RemoveLookup(es, idx, r, k);
    }
  }

  lemma RemoveLookup(es: seq<Entry>, idx: nat, r: seq<Entry>, k: bytes)
    requires Sorted(es) && idx < |es| && Sorted(r) && |r| == |es| - 1
    requires forall i :: 0 <= i < |r| ==> r[i] == es[if i < idx then i else i + 1]
    ensures k in Contents(r) <==> k in Contents(es) && k != es[idx].key
    ensures k in Contents(r) ==> Contents(r)[k] == Contents(es)[k]
  {
    hide Contents, Sorted;
    if k in Contents(r) { RemoveKeeps(es, idx, r, k); }
    if k in Contents(es) && k != es[idx].key { RemoveFinds(es, idx, r, k); }
  }

  lemma RemoveKeeps(es: seq<Entry>, idx: nat, r: seq<Entry>, k: bytes)
    requires Sorted(es) && idx < |es| && Sorted(r) && |r| == |es| - 1
    requires forall i :: 0 <= i < |r| ==> r[i] == es[if i < idx then i else i + 1]
    requires k in Contents(r)
    ensures k in Contents(es) && k != es[idx].key && Contents(r)[k] == Contents(es)[k]
  {
    hide Contents, Sorted;
    var i := ContentsSound(r, k);
    var j := if i < idx then i else i + 1;
    ContentsAt(es, j);
    ContentsAt(r, i);
    if k == es[idx].key { DistinctKeys(es, j, idx); }
  }

  lemma RemoveFinds(es: seq<Entry>, idx: nat, r: seq<Entry>, k: bytes)
    requires Sorted(es) && idx < |es| && Sorted(r) && |r| == |es| - 1
    requires forall i :: 0 <= i < |r| ==> r[i] == es[if i < idx then i else i + 1]
    requires k in Contents(es) && k != es[idx].key
    ensures k in Contents(r)
  {
    hide Contents, Sorted;
    var i := ContentsSound(es, k);
    ContentsAt(r, if i < idx then i else i - 1);
  }

  /** Every finite map has a canonical sorted form. */
  ghost function SortedEntries(m: Table): (es: seq<Entry>)
    ensures Sorted(es) && Contents(es) == m
    decreases |m|
  {
    if m == map[] then []
    else
      var k :| k in m;
      var smaller := m - {k};
      assert |smaller| < |m| by { assert smaller.Keys == m.Keys - {k}; }
      var rest := SortedEntries(smaller);
      var idx := InsertionPoint(rest, k);
      InsertContents(rest, Entry(k, m[k]), idx);
      var r := rest[..idx] + [Entry(k, m[k])] + rest[idx..];
      assert Contents(r) == m;
      r
  }

  /** The entries are those of the map, in the order of the bytes of their keys. */
  ghost predicate Lists(es: seq<Entry>, m: Table)
  {
    && (forall i, j :: 0 <= i < j < |es| ==> Before(es[i].key, es[j].key))
    && (forall e :: e in es <==> e.key in m && m[e.key] == e.val)
  }

  lemma ListsSorted(es: seq<Entry>, m: Table)
    ensures Lists(es, m) <==> Sorted(es) && Contents(es) == m
  {
    hide Contents, Less, Before;
    forall i, j | 0 <= i < j < |es| ensures Less(es[i].key, es[j].key) <==> Before(es[i].key, es[j].key) {
      LessIsBefore(es[i].key, es[j].key);
    }
    if Sorted(es) { ListedOnce(es); }
    if Lists(es, m) { ListedAll(es, m); }
  }

  lemma ListedOnce(es: seq<Entry>)
    requires Sorted(es)
    ensures forall e :: e in es <==> e.key in Contents(es) && Contents(es)[e.key] == e.val
  {
    hide Contents, Less;
    forall e ensures e in es <==> e.key in Contents(es) && Contents(es)[e.key] == e.val {
      if e in es {
        var i :| 0 <= i < |es| && es[i] == e;
        ContentsAt(es, i);
      }
      if e.key in Contents(es) && Contents(es)[e.key] == e.val {
        var i := ContentsSound(es, e.key);
        assert es[i] == e;
      }
    }
  }

  lemma ListedAll(es: seq<Entry>, m: Table)
    requires Sorted(es) && forall e :: e in es <==> e.key in m && m[e.key] == e.val
    ensures Contents(es) == m
  {
    hide Contents, Less;
    ListedOnce(es);
    forall k ensures k in Contents(es) <==> k in m
             ensures k in m ==> Contents(es)[k] == m[k] {
      if k in m { assert Entry(k, m[k]) in es; }
      if k in Contents(es) { assert Entry(k, Contents(es)[k]) in es; }
    }
  }

  ghost function InsertionPoint(es: seq<Entry>, key: bytes): (idx: nat)
    requires Sorted(es) && key !in Contents(es)
    ensures Position(es, key, idx, false)
  {
    if es == [] then 0
    else
      var n := |es| - 1;
      CompareDecidesOrder(es[n].key, key);
      ContentsAt(es, n);
      if Less(es[n].key, key) then
        assert forall i :: 0 <= i < n ==> Less(es[i].key, key) by {
          forall i | 0 <= i < n ensures Less(es[i].key, key) {
            LessTransitive(es[i].key, es[n].key, key);
          }
        }
        |es|
      else InsertionPoint(es[..n], key)
  }

  // ---------------------------------------------------------------- the mutable table

  class MemTable {
    var entries: seq<Entry>

    ghost predicate Valid()
      reads this
    {
      Sorted(entries)
    }

    constructor ()
      ensures Valid() && entries == [] && Contents(entries) == map[]
    {
      entries := [];
    }

    /** Binary search: the key's index, or its insertion point. */
    method Find(key: bytes) returns (idx: nat, found: bool)
      requires Valid()
      ensures Position(entries, key, idx, found)
      ensures found <==> key in Contents(entries)
      ensures found ==> Contents(entries)[key] == entries[idx].val
    {
      var low, high := 0, |entries|;
      while low < high
        invariant 0 <= low <= high <= |entries|
        invariant forall i :: 0 <= i < low ==> Less(entries[i].key, key)
        invariant forall i :: high <= i < |entries| ==> Less(key, entries[i].key)
      {
        var mid := low + (high - low) / 2;
        var cmp := KeyCompare(entries[mid].key, key);
        CompareDecidesOrder(entries[mid].key, key);
        if cmp == 0 {
          PositionFound(entries, key, mid, true);
          return mid, true;
        } else if cmp < 0 {
          forall i | low <= i < mid ensures Less(entries[i].key, key) {
            LessTransitive(entries[i].key, entries[mid].key, key);
          }
          low := mid + 1;
        } else {
          forall i | mid < i < high ensures Less(key, entries[i].key) {
            LessTransitive(key, entries[mid].key, entries[i].key);
          }
          high := mid;
        }
      }
      PositionFound(entries, key, low, false);
      return low, false;
    }

    method Put(key: bytes, val: bytes)
      requires Valid()
      modifies this
      ensures Valid()
      ensures Contents(entries) == old(Contents(entries))[key := val]
    {
      var idx, found := Find(key);
      if found {
        UpdateContents(entries, idx, val);
        entries := entries[idx := Entry(entries[idx].key, val)];
      } else {
        InsertContents(entries, Entry(key, val), idx);
        entries := entries[..idx] + [Entry(key, val)] + entries[idx..];
      }
    }

    method Del(key: bytes) returns (found: bool)
      requires Valid()
      modifies this
      ensures Valid()
      ensures found <==> key in old(Contents(entries))
      ensures Contents(entries) == old(Contents(entries)) - {key}
      ensures !found ==> entries == old(entries)
    {
      var idx;
      idx, found := Find(key);
      if found {
        RemoveContents(entries, idx);
        entries := entries[..idx] + entries[idx + 1..];
      }
    }
  }
}
