/** The image loader: a cursor over the bytes, and one loop per section that checks each field
    as soon as it is read and fills the tables of the machine. */
module Linbc1 {
  import opened Bytes
  import opened Seqs
  import opened Int64
  import opened Vm
  import opened ImageFormat
  import opened LinImage

  class Cursor {
    const p: bytes
    var at: nat

    ghost predicate Valid()
      reads this
    {
      at <= |p|
    }

    ghost function Rest(): bytes
      reads this
      requires Valid()
    {
      p[at..]
    }

    constructor (p: bytes, at: nat)
      requires at <= |p|
      ensures Valid() && Rest() == p[at..] && this.p == p && this.at == at
    {
      this.p := p;
      this.at := at;
    }

    /** The readers of 1, 2, 4 and 8 bytes: the sum of the bytes, each shifted by its place. */
    method Read(n: nat) returns (ok: bool, v: nat)
      requires Valid()
      modifies this
      ensures Valid()
      ensures match Field(old(Rest()), n, LdSection)
              case Got(x, rest) => ok && v == x && Rest() == rest
              case Bad(e) => !ok && e == LdSection && Rest() == old(Rest())
    {
      ghost var all := Rest();
      v := 0;
      if at + n > |p| { return false, 0; }
      var k: nat, place: nat := 0, 1;
      while k < n
        invariant k <= n && at == old(at) && place == Pow256(k)
        invariant v == FromLE(all[..k])
      {
        FromLESnoc(all[..k], p[at + k]);
        assert all[..k + 1] == all[..k] + [p[at + k]];
        v := v + p[at + k] * place;
        k, place := k + 1, 256 * place;
      }
      at := at + n;
      assert Rest() == all[n..];
      return true, v;
    }

    /** Takes `n` bytes as they are. */
    method Skip(n: nat) returns (s: bytes)
      requires Valid() && n <= |p| - at
      modifies this
      ensures Valid() && s == old(Rest())[..n] && Rest() == old(Rest())[n..]
    {
      s := p[at..at + n];
      at := at + n;
    }
  }

  /** The end of a section: the items and the rest of the bytes, or the first error. */
  ghost predicate Ends<T>(err: LoadErr, xs: seq<T>, rest: bytes, spec: Res<seq<T>>)
  {
    match spec
    case Got(ys, r) => err == LdOk && xs == ys && rest == r
    case Bad(e) => err == e
  }

  lemma PrependNil<T>(r: Res<seq<T>>)
    ensures Prepend([], r) == r
  {
    if r.Got? {
      assert [] + r.v == r.v;
    }
  }

  method LoadStrings(c: Cursor, n: nat) returns (err: LoadErr, out: seq<bytes>)
    requires c.Valid()
    modifies c
    ensures c.Valid() && Ends(err, out, c.Rest(), ReadList(Strings(), 0, n, old(c.Rest())))
  {
    hide Field, ReadList, Prepend;
    ghost var whole := ReadList(Strings(), 0, n, c.Rest());
    out := [];
    PrependNil(whole);
    var used: nat, i: nat := 0, 0;
    while i < n
      invariant i <= n && c.Valid()
      invariant whole == Prepend(out, ReadList(Strings(), used, n - i, c.Rest()))
    {
      ReadStep(Strings(), used, n - i, c.Rest(), out);
      var ok, len := c.Read(4);
      if !ok { return LdSection, out; }
      if c.at + len > |c.p| { return LdShort, out; }
      if used + len > MAX_STR_BYTES { return LdCount, out; }
      var s := c.Skip(len);
      out, used, i := out + [s], used + len, i + 1;
    }
    ReadDone(Strings(), used, c.Rest(), out);
    return LdOk, out;
  }

  /** The same field read with another error. */
  lemma FieldErr(b: bytes, n: nat, err: Trouble)
    ensures match Field(b, n, LdSection)
            case Bad(_) => Field(b, n, err) == Bad(err)
            case Got(_, _) => Field(b, n, err) == Field(b, n, LdSection)
  {
  }

  method LoadRegions(c: Cursor, n: nat) returns (err: LoadErr, cells: seq<nat>)
    requires c.Valid()
    modifies c
    ensures c.Valid() && Ends(err, cells, c.Rest(), ReadList(Regions(), RegionCount(0, 0), n, old(c.Rest())))
  {
    hide Field, ReadList, Prepend;
    ghost var whole := ReadList(Regions(), RegionCount(0, 0), n, c.Rest());
    cells := [];
    PrependNil(whole);
    var total: nat, i: nat := 0, 0;
    while i < n
      invariant i <= n && c.Valid()
      invariant whole == Prepend(cells, ReadList(Regions(), RegionCount(i, total), n - i, c.Rest()))
    {
      ReadStep(Regions(), RegionCount(i, total), n - i, c.Rest(), cells);
      var ok, id := c.Read(4);
      if !ok { return LdSection, cells; }
      var size;
      ok, size := c.Read(4);
      if !ok { return LdSection, cells; }
      if id != i { return LdRegion, cells; }
      if total + size > MAX_CELLS { return LdRegion, cells; }
      total, cells, i := total + size, cells + [size], i + 1;
    }
    ReadDone(Regions(), RegionCount(i, total), c.Rest(), cells);
    return LdOk, cells;
  }

  /** Which intrinsics a list of ids names. */
  function Declared(ids: seq<nat>): (r: seq<bool>)
    ensures |r| == MAX_ABIS
  {
    seq(MAX_ABIS, k => k in ids)
  }

  method LoadAbis(c: Cursor, n: nat) returns (err: LoadErr, flags: seq<bool>, ghost ids: seq<nat>)
    requires c.Valid()
    modifies c
    ensures c.Valid() && Ends(err, ids, c.Rest(), ReadList(Abis(), 0, n, old(c.Rest())))
    ensures err == LdOk ==> flags == Declared(ids)
  {
    hide Field, ReadList, Prepend;
    ghost var whole := ReadList(Abis(), 0, n, c.Rest());
    ids := [];
    PrependNil(whole);
    flags := seq(MAX_ABIS, _ => false);
    for i := 0 to n
      invariant c.Valid() && flags == Declared(ids)
      invariant whole == Prepend(ids, ReadList(Abis(), 0, n - i, c.Rest()))
    {
      ReadStep(Abis(), 0, n - i, c.Rest(), ids);
      var ok, id := c.Read(1);
      if !ok { return LdSection, flags, ids; }
      if id > 8 { return LdAbi, flags, ids; }
      ids, flags := ids + [id], flags[id := true];
    }
    ReadDone(Abis(), 0, c.Rest(), ids);
    return LdOk, flags, ids;
  }

  method LoadArrs(c: Cursor, n: nat, nlocals: nat) returns (err: LoadErr, dense: Dense, ghost arrs: seq<ArrDecl>)
    requires c.Valid() && nlocals <= MAX_LOCALS
    modifies c
    ensures c.Valid() && Ends(err, arrs, c.Rest(), ReadList(Arrs(nlocals), NoArrays(), n, old(c.Rest())))
    ensures err == LdOk ==> dense == Fill(NoArrays(), arrs)
  {
    hide Field, ReadList, Prepend;
    ghost var whole := ReadList(Arrs(nlocals), NoArrays(), n, c.Rest());
    arrs := [];
    PrependNil(whole);
    dense := NoArrays();
    for k := 0 to n
      invariant c.Valid() && dense == Fill(NoArrays(), arrs)
      invariant whole == Prepend(arrs, ReadList(Arrs(nlocals), dense, n - k, c.Rest()))
    {
      ReadStep(Arrs(nlocals), dense, n - k, c.Rest(), arrs);
      var ok, li := c.Read(1);
      if !ok { return LdSection, dense, arrs; }
      var alen;
      ok, alen := c.Read(2);
      if !ok { return LdSection, dense, arrs; }
      if li >= nlocals { return LdLocal, dense, arrs; }
      if alen == 0 || alen > MAX_ARR_LEN { return LdFn, dense, arrs; }
      if dense[li] != 0 { return LdFn, dense, arrs; }
      FillSnoc(NoArrays(), arrs, ArrDecl(li, alen));
      arrs := arrs + [ArrDecl(li, alen)];
      dense := dense[li := alen];
    }
    ReadDone(Arrs(nlocals), dense, c.Rest(), arrs);
    return LdOk, dense, arrs;
  }

  lemma {:induction false} FillSnoc(dense: Dense, arrs: seq<ArrDecl>, a: ArrDecl)
    ensures Fill(dense, arrs + [a]) == SetDense(Fill(dense, arrs), a)
    decreases |arrs|
  {
    if arrs != [] {
      AppendTail(arrs, [a]);
      FillSnoc(SetDense(dense, arrs[0]), arrs[1..], a);
    } else {
      assert ([a])[1..] == [];
    }
  }

  method LoadCode(c: Cursor, k: Bounds) returns (err: LoadErr, code: seq<Ins>)
    requires c.Valid()
    modifies c
    ensures c.Valid() && Ends(err, code, c.Rest(), ReadList(Code(k), 0, k.codeLen, old(c.Rest())))
  {
    hide Field, OpOf, ReadList, Prepend;
    ghost var whole := ReadList(Code(k), 0, k.codeLen, c.Rest());
    code := [];
    PrependNil(whole);
    for pc := 0 to k.codeLen
      invariant c.Valid()
      invariant whole == Prepend(code, ReadList(Code(k), 0, k.codeLen - pc, c.Rest()))
    {
      ReadStep(Code(k), 0, k.codeLen - pc, c.Rest(), code);
      var ok, op := c.Read(1);
      if !ok { return LdSection, code; }
      var v;
      ok, v := c.Read(8);
      if !ok { return LdSection, code; }
      var a := AsI64(v);
      if op > 32 { return LdOpcode, code; }
      if op == 23 || op == 24 || op == 25 || op == 26 {
        if a < 0 || a >= k.codeLen { return LdJump, code; }
      } else if op == 28 {
        if a < 0 || a >= k.nFns { return LdCall, code; }
      } else if op == 1 || op == 2 || op == 30 || op == 31 || op == 32 {
        if a < 0 || a >= k.nlocals { return LdLocal, code; }
      }
      code := code + [Ins(OpOf(op), a)];
    }
    ReadDone(Code(k), 0, c.Rest(), code);
    return LdOk, code;
  }

  method LoadHead(c: Cursor, n: Names) returns (err: LoadErr, h: FnHead)
    requires c.Valid()
    modifies c
    ensures c.Valid()
    ensures match ReadHead(n, old(c.Rest()))
            case Got(h', rest) => err == LdOk && h == h' && c.Rest() == rest
            case Bad(e) => err == e
  {
    hide Field, HeadFits;
    h := FnHead(0, 0, 0, 0, 0);
    var ok, name := c.Read(4);
    if !ok { return LdSection, h; }
    if name >= n.nStrings { return LdFn, h; }
    var nparams, nlocals, nArrs, codeLen;
    ok, nparams := c.Read(1);
    if !ok { return LdSection, h; }
    ok, nlocals := c.Read(1);
    if !ok { return LdSection, h; }
    ok, nArrs := c.Read(1);
    if !ok { return LdSection, h; }
    ok, codeLen := c.Read(4);
    if !ok { return LdSection, h; }
    if codeLen == 0 { return LdFn, h; }
    if nparams > nlocals || nlocals > MAX_LOCALS { return LdFn, h; }
    if nArrs > MAX_FN_ARRS { return LdFn, h; }
    return LdOk, FnHead(name, nparams, nlocals, nArrs, codeLen);
  }

  /** The entry of the function table that a declaration turns into. */
  function Materialize(f: FnDecl): Fn
    requires f.nlocals <= MAX_LOCALS
  {
    Fn(f.nparams, f.nlocals, f.code, true, Fill(NoArrays(), f.arrs)[..f.nlocals])
  }

  method LoadFn(c: Cursor, n: Names, used: nat) returns (err: LoadErr, fn: Fn, name: nat, ghost decl: FnDecl)
    requires c.Valid()
    modifies c
    ensures c.Valid()
    ensures match ReadFn(n, used, old(c.Rest()))
            case Got(f, rest) =>
              err == LdOk && decl == f && f.nlocals <= MAX_LOCALS && fn == Materialize(f) && name == f.name < n.nStrings
              && c.Rest() == rest
            case Bad(e) => err == e
  {
    hide ReadHead, ReadList, Fill;
    fn, name, decl := Fn(0, 0, [], false, []), 0, FnDecl(0, 0, 0, [], []);
    var h, dense, code;
    ghost var arrs;
    err, h := LoadHead(c, n);
    if err != LdOk { return; }
    err, dense, arrs := LoadArrs(c, h.nArrs, h.nlocals);
    if err != LdOk { return; }
    if used + h.codeLen > MAX_INS_TOTAL { err := LdCount; return; }
    err, code := LoadCode(c, Bounds(h.codeLen, n.nFns, h.nlocals));
    if err != LdOk { return; }
    decl := FnDecl(h.name, h.nparams, h.nlocals, arrs, code);
    fn, name := Fn(h.nparams, h.nlocals, code, true, dense[..h.nlocals]), h.name;
  }

  /** The function table of a list of declarations. */
  function Table(fns: seq<FnDecl>): (r: seq<Fn>)
    requires forall i :: 0 <= i < |fns| ==> fns[i].nlocals <= MAX_LOCALS
    ensures |r| == |fns|
  {
    seq(|fns|, i requires 0 <= i < |fns| => Materialize(fns[i]))
  }

  /** The declaration binds no array to local `i`. */
  ghost predicate NoArrayAt(d: FnDecl, i: nat)
  {
    forall k :: 0 <= k < |d.arrs| ==> d.arrs[k].local != i
  }

  /** What an entry of the function table has to hold of its declaration. */
  ghost predicate EntryOf(d: FnDecl, fn: Fn)
  {
    && fn.nparams == d.nparams && fn.nlocals == d.nlocals && fn.code == d.code && fn.ok && |fn.arrN| == d.nlocals
    && (forall k :: 0 <= k < |d.arrs| ==> d.arrs[k].local < d.nlocals && fn.arrN[d.arrs[k].local] == d.arrs[k].len)
    && (forall i :: 0 <= i < d.nlocals && NoArrayAt(d, i) ==> fn.arrN[i] == 0)
  }

  lemma {:induction false} FillHolds(dense: Dense, arrs: seq<ArrDecl>, i: nat)
    requires i < MAX_LOCALS && forall j, k :: 0 <= j < k < |arrs| ==> arrs[j].local != arrs[k].local
    ensures forall k :: 0 <= k < |arrs| && arrs[k].local == i ==> Fill(dense, arrs)[i] == arrs[k].len
    ensures (forall k :: 0 <= k < |arrs| ==> arrs[k].local != i) ==> Fill(dense, arrs)[i] == dense[i]
    decreases |arrs|
  {
    if arrs != [] {
      var rest := arrs[1..];
      FillHolds(SetDense(dense, arrs[0]), rest, i);
      forall k | 0 <= k < |arrs| && arrs[k].local == i ensures Fill(dense, arrs)[i] == arrs[k].len {
        if k > 0 { assert rest[k - 1] == arrs[k]; }
      }
    }
  }

  lemma MaterializeEntry(d: FnDecl)
    requires d.nlocals <= MAX_LOCALS && ArrsFit(d.arrs, d.nlocals)
    ensures EntryOf(d, Materialize(d))
  {
    hide Fill;
    forall i: nat | i < MAX_LOCALS
      ensures forall k :: 0 <= k < |d.arrs| && d.arrs[k].local == i ==> Fill(NoArrays(), d.arrs)[i] == d.arrs[k].len
      ensures NoArrayAt(d, i) ==> Fill(NoArrays(), d.arrs)[i] == 0
    {
      FillHolds(NoArrays(), d.arrs, i);
    }
  }

  /** For every accepted image: parameter and local counts, code and arrays of every function are the
      declared ones. */
  lemma LoadedEntry(h: Hash, img: bytes, im: Image, fi: nat)
    requires Load(h, img) == Loaded(im) && fi < |im.fns| && Named(im.strings, im.fns)
    ensures EntryOf(im.fns[fi], Table(im.fns)[fi])
    ensures ArrsFit(im.fns[fi].arrs, im.fns[fi].nlocals) && im.fns[fi].nlocals <= 64
  {
    hide Load, Materialize, EntryOf;
    LoadExact(h, img, im);
    MaterializeEntry(im.fns[fi]);
  }

  function NamesOf(strings: seq<bytes>, fns: seq<FnDecl>): (r: seq<bytes>)
    requires forall i :: 0 <= i < |fns| ==> fns[i].name < |strings|
    ensures |r| == |fns|
  {
    seq(|fns|, i requires 0 <= i < |fns| => strings[fns[i].name])
  }

  ghost predicate Named(strings: seq<bytes>, fns: seq<FnDecl>)
  {
    forall i :: 0 <= i < |fns| ==> fns[i].nlocals <= MAX_LOCALS && fns[i].name < |strings|
  }

  method LoadFns(c: Cursor, nFns: nat, strings: seq<bytes>)
      returns (err: LoadErr, fns: seq<Fn>, names: seq<bytes>, ghost decls: seq<FnDecl>)
    requires c.Valid()
    modifies c
    ensures c.Valid() && Ends(err, decls, c.Rest(), ReadList(Fns(Names(|strings|, nFns)), 0, nFns, old(c.Rest())))
    ensures err == LdOk ==> Named(strings, decls) && fns == Table(decls) && names == NamesOf(strings, decls)
  {
    hide ReadFn, ReadList, Prepend, Materialize, FnFits, EncFn;
    var n := Names(|strings|, nFns);
    ghost var whole := ReadList(Fns(n), 0, nFns, c.Rest());
    PrependNil(whole);
    fns, names, decls := [], [], [];
    var used: nat := 0;
    for fi := 0 to nFns
      invariant c.Valid() && Named(strings, decls)
      invariant fns == Table(decls) && names == NamesOf(strings, decls)
      invariant whole == Prepend(decls, ReadList(Fns(n), used, nFns - fi, c.Rest()))
    {
      ReadStep(Fns(n), used, nFns - fi, c.Rest(), decls);
      var fn, name;
      ghost var decl;
      err, fn, name, decl := LoadFn(c, n, used);
      if err != LdOk { return; }
      decls, fns, names := decls + [decl], fns + [fn], names + [strings[name]];
      used := used + |fn.code|;
      CodeOf(decl);
    }
    ReadDone(Fns(n), used, c.Rest(), decls);
    err := LdOk;
  }

  lemma CodeOf(f: FnDecl)
    requires f.nlocals <= MAX_LOCALS
    ensures Materialize(f).code == f.code
  {
  }

  /** Everything a loaded image leaves in the machine. */
  class LinBc1Vm {
    var fns: seq<Fn>
    var names: seq<bytes>
    var profile: nat
    var cells: seq<nat>
    var abis: seq<bool>
    var sha: bytes
    var len: nat

    /** The tables hold the functions of the image, their names, its region sizes and its
        declared intrinsics. */
    ghost predicate Holds(im: Image)
      reads this
    {
      && Named(im.strings, im.fns) && fns == Table(im.fns) && names == NamesOf(im.strings, im.fns)
      && profile == im.profile && cells == im.cells && abis == Declared(im.abis)
    }

    method LoadProfile(c: Cursor) returns (err: LoadErr)
      requires c.Valid()
      modifies c, this`profile
      ensures c.Valid()
      ensures match ReadProfile(old(c.Rest()))
              case Got(p, rest) => err == LdOk && profile == p && c.Rest() == rest
              case Bad(e) => err == e
    {
      hide Field;
      var ok, v;
      FieldErr(c.Rest(), 1, LdVersion);
      ok, v := c.Read(1);
      if !ok || v != 1 { return LdVersion; }
      ok, v := c.Read(1);
      if !ok { return LdSection; }
      if v != 1 && v != 2 { return LdProfile; }
      profile := v;
      FieldErr(c.Rest(), 1, LdFlags);
      ok, v := c.Read(1);
      if !ok || v != 0 { return LdFlags; }
      return LdOk;
    }

    method LoadCounts(c: Cursor) returns (err: LoadErr, h: Header)
      requires c.Valid()
      modifies c
      ensures c.Valid()
      ensures match ReadCounts(profile, old(c.Rest()))
              case Got(h', rest) => err == LdOk && h == h' && c.Rest() == rest
              case Bad(e) => err == e
    {
      hide Field;
      h := Header(0, 0, 0, 0, 0);
      var ok, nStrings, nFns, nRegions, nAbis;
      FieldErr(c.Rest(), 4, LdShort);
      ok, nStrings := c.Read(4);
      if !ok { return LdShort, h; }
      FieldErr(c.Rest(), 4, LdShort);
      ok, nFns := c.Read(4);
      if !ok { return LdShort, h; }
      FieldErr(c.Rest(), 4, LdShort);
      ok, nRegions := c.Read(4);
      if !ok { return LdShort, h; }
      FieldErr(c.Rest(), 4, LdShort);
      ok, nAbis := c.Read(4);
      if !ok { return LdShort, h; }
      if nStrings > MAX_STRINGS || nFns > MAX_FNS || nRegions > MAX_REGIONS || nAbis > 9 { return LdCount, h; }
      return LdOk, Header(profile, nStrings, nFns, nRegions, nAbis);
    }

    method LoadHeader(c: Cursor) returns (err: LoadErr, h: Header)
      requires c.Valid()
      modifies c, this`profile
      ensures c.Valid()
      ensures match ReadHeader(old(c.Rest()))
              case Got(h', rest) => err == LdOk && h == h' && profile == h.profile && c.Rest() == rest
              case Bad(e) => err == e
    {
      hide ReadProfile, ReadCounts;
      h := Header(0, 0, 0, 0, 0);
      err := LoadProfile(c);
      if err != LdOk { return; }
      CountsProfile(profile, c.Rest());
      err, h := LoadCounts(c);
    }

    method LoadSections(c: Cursor, h: Header) returns (err: LoadErr, ghost im: Image)
      requires c.Valid() && profile == h.profile
      modifies c, this`fns, this`names, this`cells, this`abis
      ensures c.Valid()
      ensures match ReadSections(h, old(c.Rest()))
              case Got(im', rest) => err == LdOk && im == im' && Holds(im) && c.Rest() == rest
              case Bad(e) => err == e
    {
      hide ReadList, Table, NamesOf, Declared;
      im := Image(0, [], [], [], []);
      var strings;
      err, strings := LoadStrings(c, h.nStrings);
      if err != LdOk { return; }
      if h.profile == 1 && h.nRegions != 0 { err := LdRegion; return; }
      err, cells := LoadRegions(c, h.nRegions);
      if err != LdOk { return; }
      ghost var ids;
      err, abis, ids := LoadAbis(c, h.nAbis);
      if err != LdOk { return; }
      ghost var decls;
      err, fns, names, decls := LoadFns(c, h.nFns, strings);
      if err != LdOk { return; }
      im := Image(h.profile, strings, cells, ids, decls);
    }

    /** Parses, validates and checks the digest; the tables mean something only on success. */
    method Load(h: Hash, img: bytes) returns (err: LoadErr)
      modifies this
      ensures match LinImage.Load(h, img)
              case Loaded(im) => err == LdOk && Holds(im) && ValidImage(im) && len == |img| && img == Seal(h, im)
                                 && sha == h(DOMAIN + ImageBody(im))
              case Rejected(e) => err == e
    {
      hide ReadHeader, ReadSections, ValidImage, Seal, Table, NamesOf, Declared, Named, ImageBody;
      ghost var whole := LinImage.Load(h, img);
      if |img| < 25 + 32 { return LdShort; }
      if img[..6] != MAGIC { return LdMagic; }
      var body, tail := img[..|img| - 32], img[|img| - 32..];
      var c := new Cursor(body, 6);
      var head;
      ghost var im;
      err, head := LoadHeader(c);
      if err != LdOk { return; }
      err, im := LoadSections(c, head);
      if err != LdOk { return; }
      if c.at != |c.p| { return LdTrailing; }
      var digest := h(DOMAIN + body);
      if digest != tail { return LdSelfHash; }
      sha, len := digest, |img|;
      LoadExact(h, img, im);
      SealParts(h, im);
    }

    /** The first function with exactly this name, or -1. */
    method FindFn(name: bytes) returns (i: int)
      ensures i == -1 ==> name !in names
      ensures i != -1 ==> 0 <= i < |names| && names[i] == name && name !in names[..i]
    {
      for k := 0 to |names|
        invariant name !in names[..k]
      {
        if |names[k]| == |name| && names[k] == name { return k; }
      }
      return -1;
    }
  }

  lemma SealParts(h: Hash, im: Image)
    ensures var img := Seal(h, im); |img| >= 32 && img[..|img| - 32] == ImageBody(im)
  {
    var body := ImageBody(im);
    ConcatParts(body, h(DOMAIN + body));
  }

  // ---------------------------------------------------------------- the displayed digest

  lemma FoldMod(f: nat, w: nat)
    ensures (f % TWO64 * 0x1_0000_0000 + w) % TWO64 == (f * 0x1_0000_0000 + w) % TWO64
  {
    var q := f / TWO64;
    assert f == q * TWO64 + f % TWO64;
    ModShift(f % TWO64 * 0x1_0000_0000 + w, q * 0x1_0000_0000);
  }

  lemma ModShift(x: nat, k: nat)
    ensures (x + k * TWO64) % TWO64 == x % TWO64
  {
    assert x + k * TWO64 == (x / TWO64 + k) * TWO64 + x % TWO64;
  }

  lemma WordValue(w: bytes)
    requires |w| == 4
    ensures FromBE(w) == w[0] as int * 0x100_0000 + w[1] as int * 0x1_0000 + w[2] as int * 0x100 + w[3] as int
  {
    assert w[..3][..2] == w[..2] && w[..2][..1] == w[..1] && w[..1][..0] == [];
    assert FromBE(w[..1]) == w[0];
    assert FromBE(w[..2]) == w[0] as int * 256 + w[1] as int;
  }

  /** Folding eight 32-bit words modulo 2^64 keeps only the last two: the scalar that stands for
      a digest when hosts are compared is its last eight bytes. */
  method FoldDigest(d: Digest) returns (r: i64)
    ensures r == FromU64(FromBE(d[24..]) % TWO64) && FromBE(d[24..]) < TWO64
  {
    var f: u64 := 0;
    SmallPowers();
    for i := 0 to 8
      invariant f == FromBE(d[..4 * i]) % TWO64
    {
      var w := d[4 * i] as int * 0x100_0000 + d[4 * i + 1] as int * 0x1_0000
               + d[4 * i + 2] as int * 0x100 + d[4 * i + 3] as int;
      WordValue(d[4 * i..4 * i + 4]);
      assert d[..4 * (i + 1)] == d[..4 * i] + d[4 * i..4 * i + 4];
      FromBEConcat(d[..4 * i], d[4 * i..4 * i + 4]);
      FoldMod(FromBE(d[..4 * i]), w);
      f := (f * 0x1_0000_0000 + w) % TWO64;
    }
    assert d[..32] == d && d == d[..24] + d[24..];
    FromBEConcat(d[..24], d[24..]);
    FromBEBounded(d[24..]);
    ModShift(FromBE(d[24..]), FromBE(d[..24]));
    return FromU64(f);
  }
}
