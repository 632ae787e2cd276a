/** The symbol table copier: it writes an object file that holds nothing but the symbol table. */
module ElfCopy {
  import opened ElfCodec
  import opened ElfFile
  import opened ElfReader

  const SHN_ABS := 0xfff1

  /** An empty string and the names `.shstrtab`, `.symtab` and `.strtab` at 1, 11 and 19. */
  const SHSTRTAB: seq<Byte> :=
    [0, 0x2e, 0x73, 0x68, 0x73, 0x74, 0x72, 0x74, 0x61, 0x62,
     0, 0x2e, 0x73, 0x79, 0x6d, 0x74, 0x61, 0x62,
     0, 0x2e, 0x73, 0x74, 0x72, 0x74, 0x61, 0x62, 0]

  /** Store a number in a field of a record; as in C it is truncated to the width of the field. */
  function Store(r: seq<Word>, ws: seq<nat>, i: nat, v: nat): (s: seq<Word>)
    requires Fits(r, ws) && i < |ws|
    ensures Fits(s, ws) && s == r[i := WordOf(v, ws[i])]
  {
    r[i := WordOf(v, ws[i])]
  }

  function ZeroRecord(ws: seq<nat>): (r: seq<Word>)
    ensures Fits(r, ws)
  {
    seq(|ws|, i requires 0 <= i < |ws| => WordOf(0, ws[i]))
  }

  // ---- the records that are written

  function NewFields(f: seq<Word>, c64: bool): (r: seq<Word>)
    requires Fits(f, EhdrWs(c64))
    ensures Fits(r, EhdrWs(c64))
  {
    var ws := EhdrWs(c64);
    var a := Store(Store(f, ws, E_ENTRY, 0), ws, E_PHOFF, 0);
    var b := Store(Store(a, ws, E_SHOFF, EhdrSize(c64)), ws, E_PHNUM, 0);
    Store(Store(b, ws, E_SHNUM, 4), ws, E_SHSTRNDX, 1)
  }

  /** Where the section names and the symbols start. */
  function NamesAt(c64: bool): nat { EhdrSize(c64) + 4 * ShdrSize(c64) }
  function SymsAt(c64: bool): nat { NamesAt(c64) + 27 }

  function NamesHdr(c64: bool): (r: seq<Word>)
    ensures Fits(r, ShdrWs(c64))
  {
    var ws := ShdrWs(c64);
    var a := Store(Store(ZeroRecord(ws), ws, SH_NAME, 1), ws, SH_TYPE, SHT_STRTAB);
    Store(Store(a, ws, SH_OFFSET, NamesAt(c64)), ws, SH_SIZE, 27)
  }

  function SymsHdr(symsh: seq<Word>, c64: bool): (r: seq<Word>)
    requires Fits(symsh, ShdrWs(c64))
    ensures Fits(r, ShdrWs(c64))
  {
    var ws := ShdrWs(c64);
    Store(Store(Store(symsh, ws, SH_NAME, 11), ws, SH_OFFSET, SymsAt(c64)), ws, SH_LINK, 3)
  }

  function StrsHdr(strsh: seq<Word>, symsize: nat, c64: bool): (r: seq<Word>)
    requires Fits(strsh, ShdrWs(c64))
    ensures Fits(r, ShdrWs(c64))
  {
    var ws := ShdrWs(c64);
    Store(Store(strsh, ws, SH_NAME, 19), ws, SH_OFFSET, SymsAt(c64) + symsize)
  }

  function NewShdrs(t: Shtab, y: Symtab, c64: bool): (r: seq<seq<Word>>)
    requires ShtabFits(t, c64) && Fits(y.symsh, ShdrWs(c64)) && Fits(y.strsh, ShdrWs(c64))
    ensures |r| == 4 && forall k :: 0 <= k < 4 ==> Fits(r[k], ShdrWs(c64))
  {
    [t.shdrs[0], NamesHdr(c64), SymsHdr(y.symsh, c64), StrsHdr(y.strsh, Val(y.symsh[SH_SIZE]), c64)]
  }

  /** Symbols defined in a section become absolute; all others keep their special index. */
  function NewSym(s: seq<Word>, nshdrs: nat, c64: bool): (r: seq<Word>)
    requires Fits(s, SymWs(c64))
    ensures Fits(r, SymWs(c64))
  {
    if 0 < Val(s[StShndx(c64)]) < nshdrs then Store(s, SymWs(c64), StShndx(c64), SHN_ABS) else s
  }

  predicate TableFits(rs: seq<seq<Word>>, ws: seq<nat>)
  {
    forall k :: 0 <= k < |rs| ==> Fits(rs[k], ws)
  }

  function NewSyms(syms: seq<seq<Word>>, nshdrs: nat, c64: bool): (r: seq<seq<Word>>)
    requires TableFits(syms, SymWs(c64))
    ensures |r| == |syms| && TableFits(r, SymWs(c64))
  {
    seq(|syms|, k requires 0 <= k < |syms| && TableFits(syms, SymWs(c64)) => NewSym(syms[k], nshdrs, c64))
  }

  function PackAll(rs: seq<seq<Word>>, ws: seq<nat>, lsb: bool): seq<Byte>
    requires TableFits(rs, ws)
  {
    if rs == [] then [] else PackAll(rs[..|rs| - 1], ws, lsb) + Pack(rs[|rs| - 1], ws, lsb)
  }

  predicate SymtabFits(y: Symtab, c64: bool)
  {
    Fits(y.symsh, ShdrWs(c64)) && Fits(y.strsh, ShdrWs(c64)) && TableFits(y.syms, SymWs(c64))
  }

  /** Can a file be written from these? */
  predicate Sound(e: Ehdr, t: Shtab, y: Symtab)
  {
    EhdrOk(e) && ShtabFits(t, Is64(e.ident)) && SymtabFits(y, Is64(e.ident))
  }

  function NewEhdr(e: Ehdr): (r: Ehdr)
    requires EhdrOk(e)
    ensures r.ident == e.ident
  {
    Ehdr(e.ident, NewFields(e.f, Is64(e.ident)))
  }

  function OutEhdr(e: Ehdr): seq<Byte>
    requires EhdrOk(e)
  {
    Pack(NewFields(e.f, Is64(e.ident)), EhdrWs(Is64(e.ident)), IsLsb(e.ident))
  }

  function OutShdrs(e: Ehdr, t: Shtab, y: Symtab): seq<Byte>
    requires Sound(e, t, y)
  {
    PackAll(NewShdrs(t, y, Is64(e.ident)), ShdrWs(Is64(e.ident)), IsLsb(e.ident))
  }

  function OutSyms(e: Ehdr, t: Shtab, y: Symtab): seq<Byte>
    requires Sound(e, t, y)
  {
    PackAll(NewSyms(y.syms, |t.shdrs|, Is64(e.ident)), SymWs(Is64(e.ident)), IsLsb(e.ident))
  }

  /** The file that is written, with these section names. */
  function OutWith(e: Ehdr, t: Shtab, y: Symtab, names: seq<Byte>): seq<Byte>
    requires Sound(e, t, y)
  {
    e.ident + OutEhdr(e) + OutShdrs(e, t, y) + names + OutSyms(e, t, y) + y.strtab
  }

  function OutOf(e: Ehdr, t: Shtab, y: Symtab): seq<Byte>
    requires Sound(e, t, y)
  {
    OutWith(e, t, y, SHSTRTAB)
  }

  // ---- reading it back

  lemma HoldsParts(data: seq<Byte>, off: nat, a: seq<Byte>, b: seq<Byte>)
    requires Holds(data, off, a + b)
    ensures Holds(data, off, a) && Holds(data, off + |a|, b)
  {
    assert (a + b)[..|a|] == a && (a + b)[|a|..] == b;
    assert data[off..off + |a + b|][..|a|] == data[off..off + |a|];
    assert data[off..off + |a + b|][|a|..] == data[off + |a|..off + |a| + |b|];
  }

  lemma {:induction false} PackAllSize(rs: seq<seq<Word>>, ws: seq<nat>, lsb: bool)
    requires TableFits(rs, ws)
    ensures |PackAll(rs, ws, lsb)| == |rs| * Size(ws)
  {
    if rs != [] {
      PackAllSize(rs[..|rs| - 1], ws, lsb);
      OneMore(|rs| - 1, Size(ws));
    }
  }

  lemma OneMore(n: nat, m: nat)
    ensures (n + 1) * m == n * m + m
  {
  }

  lemma {:induction false} PosIs(off: nat, n: nat, ws: seq<nat>)
    ensures Pos(off, n, ws) == off + n * Size(ws)
  {
    if n > 0 {
      PosIs(off, n - 1, ws);
      OneMore(n - 1, Size(ws));
    }
  }

  lemma RecordBack(data: seq<Byte>, off: nat, r: seq<Word>, ws: seq<nat>, lsb: bool)
    requires Fits(r, ws) && Holds(data, off, Pack(r, ws, lsb))
    ensures RecordAt(data, off, ws, lsb) == Some(r)
  {
    BytesBack(data, off, Pack(r, ws, lsb));
    UnpackPack(r, ws, lsb);
  }

  lemma BytesBack(data: seq<Byte>, off: nat, b: seq<Byte>)
    requires Holds(data, off, b)
    ensures BytesAt(data, off, |b|) == Some(b)
  {
  }

  /** A table of packed records is read back. */
  lemma {:induction false} RecordsBack(data: seq<Byte>, off: nat, rs: seq<seq<Word>>, ws: seq<nat>, lsb: bool)
    requires TableFits(rs, ws) && Holds(data, off, PackAll(rs, ws, lsb))
    ensures Records(data, off, |rs|, ws, lsb) == Some(rs)
  {
    if rs != [] {
      PackedParts(data, off, rs, ws, lsb);
      RecordsBack(data, off, rs[..|rs| - 1], ws, lsb);
      LastBack(data, off, rs, ws, lsb);
      RecordsWhole(data, off, rs, ws, lsb);
    }
  }

  lemma RecordsSnoc(data: seq<Byte>, off: nat, p: seq<seq<Word>>, r: seq<Word>, ws: seq<nat>, lsb: bool)
    requires Records(data, off, |p|, ws, lsb) == Some(p) && RecordAt(data, Pos(off, |p|, ws), ws, lsb) == Some(r)
    ensures Records(data, off, |p| + 1, ws, lsb) == Some(p + [r])
  {
  }

  lemma RecordsWhole(data: seq<Byte>, off: nat, rs: seq<seq<Word>>, ws: seq<nat>, lsb: bool)
    requires rs != [] && Records(data, off, |rs| - 1, ws, lsb) == Some(rs[..|rs| - 1])
    requires RecordAt(data, Pos(off, |rs| - 1, ws), ws, lsb) == Some(rs[|rs| - 1])
    ensures Records(data, off, |rs|, ws, lsb) == Some(rs)
  {
    RecordsSnoc(data, off, rs[..|rs| - 1], rs[|rs| - 1], ws, lsb);
    assert rs[..|rs| - 1] + [rs[|rs| - 1]] == rs;
  }

  lemma LastBack(data: seq<Byte>, off: nat, rs: seq<seq<Word>>, ws: seq<nat>, lsb: bool)
    requires rs != [] && TableFits(rs, ws) && Holds(data, off, PackAll(rs, ws, lsb))
    ensures RecordAt(data, Pos(off, |rs| - 1, ws), ws, lsb) == Some(rs[|rs| - 1])
  {
    var n := |rs| - 1;
    PackedParts(data, off, rs, ws, lsb);
    BehindPacked(off, rs[..n], ws, lsb);
    RecordBack(data, Pos(off, n, ws), rs[n], ws, lsb);
  }

  lemma PackedParts(data: seq<Byte>, off: nat, rs: seq<seq<Word>>, ws: seq<nat>, lsb: bool)
    requires rs != [] && TableFits(rs, ws) && Holds(data, off, PackAll(rs, ws, lsb))
    ensures Holds(data, off, PackAll(rs[..|rs| - 1], ws, lsb))
    ensures Holds(data, off + |PackAll(rs[..|rs| - 1], ws, lsb)|, Pack(rs[|rs| - 1], ws, lsb))
  {
    HoldsParts(data, off, PackAll(rs[..|rs| - 1], ws, lsb), Pack(rs[|rs| - 1], ws, lsb));
  }

  lemma BehindPacked(off: nat, rs: seq<seq<Word>>, ws: seq<nat>, lsb: bool)
    requires TableFits(rs, ws)
    ensures Pos(off, |rs|, ws) == off + |PackAll(rs, ws, lsb)|
  {
    PackAllSize(rs, ws, lsb);
    PosIs(off, |rs|, ws);
  }

  lemma OutSizes(e: Ehdr, t: Shtab, y: Symtab)
    requires Sound(e, t, y)
    ensures |OutEhdr(e)| == EhdrSize(Is64(e.ident)) - 16
    ensures |OutShdrs(e, t, y)| == 4 * ShdrSize(Is64(e.ident))
  {
    var c64 := Is64(e.ident);
    EhdrSizes(c64);
    ShdrSizes(c64);
    PackAllSize(NewShdrs(t, y, c64), ShdrWs(c64), IsLsb(e.ident));
  }

  /** The symbols take the size that their header says. */
  lemma SymsSize(y: Symtab, nshdrs: nat, c64: bool, lsb: bool)
    requires SymtabFits(y, c64) && SymshOk(y.symsh, c64) && |y.syms| == SymCount(Val(y.symsh[SH_SIZE]), c64)
    ensures |PackAll(NewSyms(y.syms, nshdrs, c64), SymWs(c64), lsb)| == Val(y.symsh[SH_SIZE])
  {
    SymSizes(c64);
    PackAllSize(NewSyms(y.syms, nshdrs, c64), SymWs(c64), lsb);
    WholeTable(Val(y.symsh[SH_SIZE]), |y.syms|, c64);
  }

  lemma WholeTable(size: nat, n: nat, c64: bool)
    requires WholeSyms(size, c64) && n == SymCount(size, c64)
    ensures n * SymSize(c64) == size
  {
  }

  /** Six parts one behind the other. */
  ghost predicate InPlace(out: seq<Byte>, a: seq<Byte>, b: seq<Byte>, c: seq<Byte>, d: seq<Byte>, e: seq<Byte>,
                          f: seq<Byte>)
  {
    && Holds(out, 0, a) && Holds(out, |a|, b) && Holds(out, |a| + |b|, c) && Holds(out, |a| + |b| + |c|, d)
    && Holds(out, |a| + |b| + |c| + |d|, e) && Holds(out, |a| + |b| + |c| + |d| + |e|, f)
  }

  lemma SixParts(out: seq<Byte>, a: seq<Byte>, b: seq<Byte>, c: seq<Byte>, d: seq<Byte>, e: seq<Byte>, f: seq<Byte>)
    requires out == a + b + c + d + e + f
    ensures InPlace(out, a, b, c, d, e, f)
  {
    assert Holds(out, 0, out);
    HoldsParts(out, 0, a + b + c + d + e, f);
    HoldsParts(out, 0, a + b + c + d, e);
    HoldsParts(out, 0, a + b + c, d);
    HoldsParts(out, 0, a + b, c);
    HoldsParts(out, 0, a, b);
  }

  lemma EhdrBack(e: Ehdr, out: seq<Byte>)
    requires EhdrOk(e) && Val(e.f[E_SHNUM]) > 0 && Holds(out, 0, e.ident) && Holds(out, 16, OutEhdr(e))
    ensures EhdrOf(out) == Some(NewEhdr(e))
    ensures var f := NewFields(e.f, Is64(e.ident));
      Val(f[E_SHNUM]) == 4 && Val(f[E_SHSTRNDX]) == 1 && Val(f[E_SHOFF]) == EhdrSize(Is64(e.ident))
  {
    var c64 := Is64(e.ident);
    BytesBack(out, 0, e.ident);
    RecordBack(out, 16, NewFields(e.f, c64), EhdrWs(c64), IsLsb(e.ident));
    NewFieldsOk(e.f, c64);
  }

  lemma NewFieldsOk(f: seq<Word>, c64: bool)
    requires Fits(f, EhdrWs(c64)) && FieldsOk(f, c64) && Val(f[E_SHNUM]) > 0
    ensures var r := NewFields(f, c64);
      Val(r[E_SHNUM]) == 4 && Val(r[E_SHSTRNDX]) == 1 && Val(r[E_SHOFF]) == EhdrSize(c64) && FieldsOk(r, c64)
  {
    Limits();
    ValOfWord(4, 2);
    ValOfWord(1, 2);
    ValOfWord(0, 2);
    ValOfWord(EhdrSize(c64), EhdrWs(c64)[E_SHOFF]);
  }

  lemma NamesHdrFields(c64: bool)
    ensures var h := NamesHdr(c64);
      Val(h[SH_TYPE]) == SHT_STRTAB && Val(h[SH_OFFSET]) == NamesAt(c64) && Val(h[SH_SIZE]) == 27
  {
    Limits();
    ValOfWord(SHT_STRTAB, 4);
    ValOfWord(NamesAt(c64), ShdrWs(c64)[SH_OFFSET]);
    ValOfWord(27, ShdrWs(c64)[SH_SIZE]);
  }

  lemma SymsHdrFields(symsh: seq<Word>, c64: bool)
    requires Fits(symsh, ShdrWs(c64))
    ensures var h := SymsHdr(symsh, c64);
      && Val(h[SH_NAME]) == 11 && Val(h[SH_OFFSET]) == SymsAt(c64) && Val(h[SH_LINK]) == 3
      && h[SH_TYPE] == symsh[SH_TYPE] && h[SH_SIZE] == symsh[SH_SIZE] && h[SH_ENTSIZE] == symsh[SH_ENTSIZE]
  {
    Limits();
    ValOfWord(11, 4);
    ValOfWord(3, 4);
    ValOfWord(SymsAt(c64), ShdrWs(c64)[SH_OFFSET]);
  }

  /** The file offsets of the copy do not exceed their fields. */
  predicate OffsetsFit(symsh: seq<Word>, c64: bool)
    requires |symsh| == 10
  {
    SymsAt(c64) + Val(symsh[SH_SIZE]) < if c64 then 0x1_0000_0000_0000_0000 else 0x1_0000_0000
  }

  lemma StrsHdrFields(strsh: seq<Word>, symsh: seq<Word>, c64: bool)
    requires Fits(strsh, ShdrWs(c64)) && Fits(symsh, ShdrWs(c64)) && OffsetsFit(symsh, c64)
    ensures var h := StrsHdr(strsh, Val(symsh[SH_SIZE]), c64);
      && Val(h[SH_NAME]) == 19 && Val(h[SH_OFFSET]) == SymsAt(c64) + Val(symsh[SH_SIZE])
      && h[SH_TYPE] == strsh[SH_TYPE] && h[SH_SIZE] == strsh[SH_SIZE]
  {
    Limits();
    ValOfWord(19, 4);
    ValOfWord(SymsAt(c64) + Val(symsh[SH_SIZE]), ShdrWs(c64)[SH_OFFSET]);
  }

  lemma ShtabBack(e: Ehdr, t: Shtab, y: Symtab, names: seq<Byte>, out: seq<Byte>)
    requires Sound(e, t, y) && Val(e.f[E_SHNUM]) > 0 && |names| == 27
    requires Holds(out, EhdrSize(Is64(e.ident)), OutShdrs(e, t, y)) && Holds(out, NamesAt(Is64(e.ident)), names)
    requires EhdrOk(NewEhdr(e))
    ensures ShtabOf(out, NewEhdr(e)) == Some(Shtab(NewShdrs(t, y, Is64(e.ident)), names))
  {
    var c64, rs := Is64(e.ident), NewShdrs(t, y, Is64(e.ident));
    RecordsBack(out, EhdrSize(c64), rs, ShdrWs(c64), IsLsb(e.ident));
    NamesHdrFields(c64);
    SectionBack(out, NamesHdr(c64), names);
    NewFieldsOk(e.f, c64);
    ShtabFrom(out, NewEhdr(e), rs, names);
  }

  lemma ShtabFrom(data: seq<Byte>, e: Ehdr, rs: seq<seq<Word>>, names: seq<Byte>)
    requires EhdrOk(e) && Val(e.f[E_SHNUM]) == |rs| > 0
    requires Records(data, Val(e.f[E_SHOFF]), |rs|, ShdrWs(Is64(e.ident)), IsLsb(e.ident)) == Some(rs)
    requires SectionOf(data, rs[Val(e.f[E_SHSTRNDX])]) == Some(names)
    ensures ShtabOf(data, e) == Some(Shtab(rs, names))
  {
  }

  lemma SectionBack(data: seq<Byte>, sh: seq<Word>, b: seq<Byte>)
    requires |sh| == 10 && Val(sh[SH_SIZE]) == |b| && Holds(data, Val(sh[SH_OFFSET]), b)
    ensures SectionOf(data, sh) == Some(b)
  {
    BytesBack(data, Val(sh[SH_OFFSET]), b);
  }

  /** Only the third header is a symbol table called `.symtab`. */
  lemma FindBack(t: Shtab, y: Symtab, names: seq<Byte>, c64: bool)
    requires NamesOk(names)
    requires ShtabFits(t, c64) && SymtabFits(y, c64) && OffsetsFit(y.symsh, c64)
    requires Val(t.shdrs[0][SH_TYPE]) != SHT_SYMTAB && Val(y.symsh[SH_TYPE]) == SHT_SYMTAB
    ensures var t' := Shtab(NewShdrs(t, y, c64), names);
      WellFormed(t', c64) && FindSymtab(t', 4) == Hit(2)
  {
    var t' := Shtab(NewShdrs(t, y, c64), names);
    NamesHdrFields(c64);
    SymsHdrFields(y.symsh, c64);
    StrsHdrFields(y.strsh, y.symsh, c64);
    assert FindSymtab(t', 1) == Nothing;
    assert FindSymtab(t', 2) == Nothing;
    assert FindSymtab(t', 3) == Hit(2);
  }

  /** What matters about the section names of the copy. */
  predicate NamesOk(names: seq<Byte>)
  {
    |names| == 27 && names[26] == 0 && StrIs(names, 11, SYMTAB_NAME) && !StrIs(names, 19, SYMTAB_NAME)
  }

  lemma NamesMatch()
    ensures NamesOk(SHSTRTAB)
  {
    assert SHSTRTAB[11..19] == SYMTAB_NAME + [0];
    assert SHSTRTAB[19..27][2] != (SYMTAB_NAME + [0])[2];
  }

  /** A symbol table whose header says where its packed records are is read back. */
  lemma SymsBack(out: seq<Byte>, sh: seq<Word>, st: seq<Word>, syms: seq<seq<Word>>, strtab: seq<Byte>,
                 c64: bool, lsb: bool)
    requires |sh| == |st| == 10 && TableFits(syms, SymWs(c64))
    requires SymCount(Val(sh[SH_SIZE]), c64) == |syms| && Holds(out, Val(sh[SH_OFFSET]), PackAll(syms, SymWs(c64), lsb))
    requires Val(st[SH_SIZE]) == |strtab| && Holds(out, Val(st[SH_OFFSET]), strtab)
    ensures SymtabAt(out, c64, lsb, sh, st) == Some(Symtab(sh, st, syms, strtab))
  {
    RecordsBack(out, Val(sh[SH_OFFSET]), syms, SymWs(c64), lsb);
    SectionBack(out, st, strtab);
  }

  /** The symbols and their names are where the headers of the copy say. */
  predicate SymsWritten(y: Symtab, nshdrs: nat, c64: bool, lsb: bool, out: seq<Byte>)
    requires SymtabFits(y, c64)
  {
    var p := PackAll(NewSyms(y.syms, nshdrs, c64), SymWs(c64), lsb);
    && |p| == Val(y.symsh[SH_SIZE])
    && Holds(out, SymsAt(c64), p) && Holds(out, SymsAt(c64) + |p|, y.strtab)
  }

  /** What the headers of the copy say about its symbols and their names. */
  predicate SaysWhere(sh: seq<Word>, st: seq<Word>, y: Symtab, c64: bool)
    requires |y.symsh| == |y.strsh| == 10
  {
    && |sh| == |st| == 10 && sh[SH_SIZE] == y.symsh[SH_SIZE] && st[SH_SIZE] == y.strsh[SH_SIZE]
    && Val(sh[SH_OFFSET]) == SymsAt(c64) && Val(st[SH_OFFSET]) == SymsAt(c64) + Val(y.symsh[SH_SIZE])
  }

  lemma NewSymsBack(y: Symtab, sh: seq<Word>, st: seq<Word>, nshdrs: nat, c64: bool, lsb: bool, out: seq<Byte>)
    requires SymtabFits(y, c64) && |y.strtab| == Val(y.strsh[SH_SIZE]) && SaysWhere(sh, st, y, c64)
    requires SymCount(Val(y.symsh[SH_SIZE]), c64) == |y.syms|
    requires SymsWritten(y, nshdrs, c64, lsb, out)
    ensures SymtabAt(out, c64, lsb, sh, st) == Some(Symtab(sh, st, NewSyms(y.syms, nshdrs, c64), y.strtab))
  {
    SymsBack(out, sh, st, NewSyms(y.syms, nshdrs, c64), y.strtab, c64, lsb);
  }

  // ---- the copier

  /** What the copier finds in its input. */
  datatype Input = Input(e: Ehdr, t: Shtab, y: Symtab)

  function ParsedTable(data: seq<Byte>): (r: Option<(Ehdr, Shtab)>)
    ensures r.Some? ==> EhdrOk(r.value.0) && ShtabFits(r.value.1, Is64(r.value.0.ident))
  {
    match EhdrOf(data)
    case None => None
    case Some(e) =>
      match ShtabOf(data, e)
      case None => None
      case Some(t) => Some((e, t))
  }

  /** A file with a well-formed header table, or one that is refused before it matters. */
  ghost predicate Acceptable(data: seq<Byte>)
  {
    match ParsedTable(data)
    case None => true
    case Some(p) => WellFormed(p.1, Is64(p.0.ident))
  }

  function Parsed(data: seq<Byte>): Option<Input>
    requires Acceptable(data)
  {
    match ParsedTable(data)
    case None => None
    case Some(p) =>
      match SymtabOf(data, p.0, p.1)
      case None => None
      case Some(y) => Some(Input(p.0, p.1, y))
  }

  /** What parsing guarantees about the symbol table. */
  lemma ParsedIsSound(data: seq<Byte>)
    requires Acceptable(data) && Parsed(data).Some?
    ensures var Input(e, t, y) := Parsed(data).value;
      && Sound(e, t, y) && Val(e.f[E_SHNUM]) > 0 && Val(y.symsh[SH_TYPE]) == SHT_SYMTAB
      && SymshOk(y.symsh, Is64(e.ident)) && |y.syms| == SymCount(Val(y.symsh[SH_SIZE]), Is64(e.ident))
      && |y.strtab| == Val(y.strsh[SH_SIZE]) && SectionOf(data, y.strsh) == Some(y.strtab)
  {
    var Input(e, t, y) := Parsed(data).value;
    HitIsSymtab(t, |t.shdrs|);
  }

  /** The symbols of a table, their names, and what a copy may change: the section index of a symbol
      that is defined in a section becomes "absolute". */
  ghost predicate SameSymbols(y: Symtab, y': Symtab, nshdrs: nat, c64: bool)
    requires SymtabFits(y, c64)
  {
    && |y'.syms| == |y.syms| && y'.strtab == y.strtab
    && forall k :: 0 <= k < |y.syms| ==>
         y'.syms[k] == if 0 < Val(y.syms[k][StShndx(c64)]) < nshdrs
                       then y.syms[k][StShndx(c64) := WordOf(SHN_ABS, 2)] else y.syms[k]
  }

  /** The six parts of the output in a file. */
  ghost predicate Written(e: Ehdr, t: Shtab, y: Symtab, names: seq<Byte>, out: seq<Byte>)
    requires Sound(e, t, y)
  {
    InPlace(out, e.ident, OutEhdr(e), OutShdrs(e, t, y), names, OutSyms(e, t, y), y.strtab)
  }

  lemma OutIsWritten(e: Ehdr, t: Shtab, y: Symtab, names: seq<Byte>)
    requires Sound(e, t, y)
    ensures Written(e, t, y, names, OutWith(e, t, y, names))
  {
    SixParts(OutWith(e, t, y, names), e.ident, OutEhdr(e), OutShdrs(e, t, y), names, OutSyms(e, t, y), y.strtab);
  }

  lemma Places(e: Ehdr, t: Shtab, y: Symtab, names: seq<Byte>, out: seq<Byte>)
    requires Sound(e, t, y) && |names| == 27 && Written(e, t, y, names, out)
    ensures Holds(out, 0, e.ident) && Holds(out, 16, OutEhdr(e))
    ensures Holds(out, EhdrSize(Is64(e.ident)), OutShdrs(e, t, y)) && Holds(out, NamesAt(Is64(e.ident)), names)
    ensures Holds(out, SymsAt(Is64(e.ident)), OutSyms(e, t, y))
    ensures Holds(out, SymsAt(Is64(e.ident)) + |OutSyms(e, t, y)|, y.strtab)
  {
    OutSizes(e, t, y);
  }

  /** Reading back what was written gives the same symbols and names in the same order, for either
      class, either byte order of the file, and whatever the host is. */
  lemma CopyReadsBack(data: seq<Byte>)
    requires Acceptable(data) && Parsed(data).Some?
    requires var Input(e, t, y) := Parsed(data).value;
      Val(t.shdrs[0][SH_TYPE]) != SHT_SYMTAB && OffsetsFit(y.symsh, Is64(e.ident))
    ensures var Input(e, t, y) := Parsed(data).value;
      && Sound(e, t, y) && Acceptable(OutOf(e, t, y)) && Parsed(OutOf(e, t, y)).Some?
      && var back := Parsed(OutOf(e, t, y)).value;
         back.e.ident == e.ident && SameSymbols(y, back.y, |t.shdrs|, Is64(e.ident))
  {
    ParsedIsSound(data);
    var Input(e, t, y) := Parsed(data).value;
    OutIsWritten(e, t, y, SHSTRTAB);
    NamesMatch();
    WrittenReadsBack(e, t, y, SHSTRTAB, OutOf(e, t, y));
  }

  lemma WrittenReadsBack(e: Ehdr, t: Shtab, y: Symtab, names: seq<Byte>, out: seq<Byte>)
    requires Sound(e, t, y) && Val(e.f[E_SHNUM]) > 0 && OffsetsFit(y.symsh, Is64(e.ident))
    requires NamesOk(names) && Written(e, t, y, names, out)
    requires Val(t.shdrs[0][SH_TYPE]) != SHT_SYMTAB && Val(y.symsh[SH_TYPE]) == SHT_SYMTAB
    requires SymshOk(y.symsh, Is64(e.ident)) && |y.syms| == SymCount(Val(y.symsh[SH_SIZE]), Is64(e.ident))
    requires |y.strtab| == Val(y.strsh[SH_SIZE])
    ensures Acceptable(out) && Parsed(out).Some?
    ensures Parsed(out).value.e.ident == e.ident && SameSymbols(y, Parsed(out).value.y, |t.shdrs|, Is64(e.ident))
  {
    var e', t' := HeadersReadBack(e, t, y, names, out);
    var y' := SymbolsReadBack(e, t, y, names, out, t'.shdrs[2], t'.shdrs[3]);
    ParsedFrom(out, e', t', y');
  }

  lemma HeadersReadBack(e: Ehdr, t: Shtab, y: Symtab, names: seq<Byte>, out: seq<Byte>) returns (e': Ehdr, t': Shtab)
    requires Sound(e, t, y) && Val(e.f[E_SHNUM]) > 0 && OffsetsFit(y.symsh, Is64(e.ident))
    requires NamesOk(names) && Written(e, t, y, names, out) && SymshOk(y.symsh, Is64(e.ident))
    requires Val(t.shdrs[0][SH_TYPE]) != SHT_SYMTAB && Val(y.symsh[SH_TYPE]) == SHT_SYMTAB
    ensures ParsedTable(out) == Some((e', t')) && EhdrOk(e') && e'.ident == e.ident && |t'.shdrs| == 4
    ensures WellFormed(t', Is64(e.ident)) && SymHdrs(t', Is64(e.ident)) == Some((t'.shdrs[2], t'.shdrs[3]))
    ensures SaysWhere(t'.shdrs[2], t'.shdrs[3], y, Is64(e.ident))
  {
    SymsHdrFields(y.symsh, Is64(e.ident));
    StrsHdrFields(y.strsh, y.symsh, Is64(e.ident));
    e' := TableReadsBack(e, t, y, names, out);
    t' := Shtab(NewShdrs(t, y, Is64(e.ident)), names);
    FindBack(t, y, names, Is64(e.ident));
    HdrsBack(t, y, names, Is64(e.ident));
  }

  lemma ParsedFrom(data: seq<Byte>, e: Ehdr, t: Shtab, y: Symtab)
    requires ParsedTable(data) == Some((e, t)) && EhdrOk(e) && WellFormed(t, Is64(e.ident)) && |t.shdrs| == 4
    requires SymHdrs(t, Is64(e.ident)) == Some((t.shdrs[2], t.shdrs[3]))
    requires SymtabAt(data, Is64(e.ident), IsLsb(e.ident), t.shdrs[2], t.shdrs[3]) == Some(y)
    ensures Acceptable(data) && Parsed(data) == Some(Input(e, t, y))
  {
  }

  /** The header and the section header table of the output. */
  lemma TableReadsBack(e: Ehdr, t: Shtab, y: Symtab, names: seq<Byte>, out: seq<Byte>) returns (e': Ehdr)
    requires Sound(e, t, y) && Val(e.f[E_SHNUM]) > 0 && |names| == 27 && Written(e, t, y, names, out)
    ensures EhdrOk(e') && e'.ident == e.ident
    ensures ParsedTable(out) == Some((e', Shtab(NewShdrs(t, y, Is64(e.ident)), names)))
  {
    e' := NewEhdr(e);
    Places(e, t, y, names, out);
    EhdrBack(e, out);
    ShtabBack(e, t, y, names, out);
    ParsedTableFrom(out, e', Shtab(NewShdrs(t, y, Is64(e.ident)), names));
  }

  lemma ParsedTableFrom(data: seq<Byte>, e: Ehdr, t: Shtab)
    requires EhdrOf(data) == Some(e) && ShtabOf(data, e) == Some(t)
    ensures ParsedTable(data) == Some((e, t))
  {
  }

  lemma SymbolsReadBack(e: Ehdr, t: Shtab, y: Symtab, names: seq<Byte>, out: seq<Byte>, sh: seq<Word>, st: seq<Word>)
    returns (y': Symtab)
    requires Sound(e, t, y) && |names| == 27 && Written(e, t, y, names, out)
    requires SymshOk(y.symsh, Is64(e.ident)) && |y.syms| == SymCount(Val(y.symsh[SH_SIZE]), Is64(e.ident))
    requires |y.strtab| == Val(y.strsh[SH_SIZE])
    requires SaysWhere(sh, st, y, Is64(e.ident))
    ensures SymtabAt(out, Is64(e.ident), IsLsb(e.ident), sh, st) == Some(y')
    ensures SameSymbols(y, y', |t.shdrs|, Is64(e.ident))
  {
    y' := Symtab(sh, st, NewSyms(y.syms, |t.shdrs|, Is64(e.ident)), y.strtab);
    SymsSize(y, |t.shdrs|, Is64(e.ident), IsLsb(e.ident));
    SymsInPlace(e, t, y, names, out);
    NewSymsBack(y, sh, st, |t.shdrs|, Is64(e.ident), IsLsb(e.ident), out);
    SameAfterCopy(y, y', |t.shdrs|, Is64(e.ident));
  }

  lemma SymsInPlace(e: Ehdr, t: Shtab, y: Symtab, names: seq<Byte>, out: seq<Byte>)
    requires Sound(e, t, y) && |names| == 27 && Written(e, t, y, names, out)
    requires |OutSyms(e, t, y)| == Val(y.symsh[SH_SIZE])
    ensures SymsWritten(y, |t.shdrs|, Is64(e.ident), IsLsb(e.ident), out)
  {
    Places(e, t, y, names, out);
  }

  lemma HdrsBack(t: Shtab, y: Symtab, names: seq<Byte>, c64: bool)
    requires ShtabFits(t, c64) && SymtabFits(y, c64) && SymshOk(y.symsh, c64)
    requires var t' := Shtab(NewShdrs(t, y, c64), names); WellFormed(t', c64) && FindSymtab(t', 4) == Hit(2)
    ensures var t' := Shtab(NewShdrs(t, y, c64), names);
      SymHdrs(t', c64) == Some((t'.shdrs[2], t'.shdrs[3]))
  {
    SymsHdrFields(y.symsh, c64);
  }

  lemma SameAfterCopy(y: Symtab, y': Symtab, nshdrs: nat, c64: bool)
    requires SymtabFits(y, c64) && y'.syms == NewSyms(y.syms, nshdrs, c64) && y'.strtab == y.strtab
    ensures SameSymbols(y, y', nshdrs, c64)
  {
  }

  /** Write the records of a table one after the other. */
  method PutTable(o: Stream, rs: seq<seq<Word>>, ws: seq<nat>)
    requires WidthsOk(ws) && TableFits(rs, ws)
    modifies o`data
    ensures o.data == old(o.data) + PackAll(rs, ws, o.host != o.needswap)
  {
    ghost var lsb, was := o.host != o.needswap, o.data;
    for i := 0 to |rs|
      invariant o.data == was + PackAll(rs[..i], ws, lsb)
    {
      o.PutRecord(rs[i], ws);
      PackSnoc(was, rs, i, ws, lsb);
    }
    assert rs[..|rs|] == rs;
  }

  lemma PackSnoc(was: seq<Byte>, rs: seq<seq<Word>>, i: nat, ws: seq<nat>, lsb: bool)
    requires i < |rs| && TableFits(rs, ws)
    ensures was + PackAll(rs[..i], ws, lsb) + Pack(rs[i], ws, lsb) == was + PackAll(rs[..i + 1], ws, lsb)
  {
    assert rs[..i + 1][..i] == rs[..i];
    Associate(was, PackAll(rs[..i], ws, lsb), Pack(rs[i], ws, lsb));
  }

  lemma Associate(a: seq<Byte>, b: seq<Byte>, c: seq<Byte>)
    ensures a + b + c == a + (b + c)
  {
  }

  /** Rewrite the section indices in place. */
  method MakeAbsolute(syms: array<seq<Word>>, nshdrs: nat, c64: bool)
    requires TableFits(syms[..], SymWs(c64))
    modifies syms
    ensures syms[..] == NewSyms(old(syms[..]), nshdrs, c64)
  {
    ghost var was := syms[..];
    for i := 0 to syms.Length
      invariant forall k :: 0 <= k < syms.Length ==> syms[k] == if k < i then NewSym(was[k], nshdrs, c64) else was[k]
    {
      assert Fits(was[i], SymWs(c64));
      if Val(syms[i][StShndx(c64)]) != 0 && Val(syms[i][StShndx(c64)]) < nshdrs {
        syms[i] := Store(syms[i], SymWs(c64), StShndx(c64), SHN_ABS);
      }
    }
  }

  /** `pmelf_putehdr32/64`. */
  method PutEhdr(o: Stream, e: Ehdr, f: seq<Word>)
    requires EhdrOk(e) && Fits(f, EhdrWs(Is64(e.ident)))
    modifies o`data, o`needswap
    ensures (o.host != o.needswap) == IsLsb(e.ident)
    ensures o.data == old(o.data) + e.ident + Pack(f, EhdrWs(Is64(e.ident)), IsLsb(e.ident))
  {
    o.needswap := o.host != (e.ident[5] == 1);
    WidthsAreOk(Is64(e.ident));
    o.Write(e.ident);
    o.PutRecord(f, EhdrWs(Is64(e.ident)));
  }

  /** Write the file header, the section headers and the section names. */
  method WriteHead(o: Stream, e: Ehdr, t: Shtab, y: Symtab, names: seq<Byte>)
    requires Sound(e, t, y) && o.data == []
    modifies o
    ensures o.data == e.ident + OutEhdr(e) + OutShdrs(e, t, y) + names
    ensures (o.host != o.needswap) == IsLsb(e.ident)
  {
    PutNewEhdr(o, e);
    PutShdrs(o, e, t, y);
    o.Write(names);
  }

  method PutNewEhdr(o: Stream, e: Ehdr)
    requires EhdrOk(e) && o.data == []
    modifies o`data, o`needswap
    ensures (o.host != o.needswap) == IsLsb(e.ident) && o.data == e.ident + OutEhdr(e)
  {
    PutEhdr(o, e, NewFields(e.f, Is64(e.ident)));
    assert [] + e.ident == e.ident;
  }

  method PutShdrs(o: Stream, e: Ehdr, t: Shtab, y: Symtab)
    requires Sound(e, t, y) && (o.host != o.needswap) == IsLsb(e.ident)
    modifies o`data
    ensures o.data == old(o.data) + OutShdrs(e, t, y)
  {
    WidthsAreOk(Is64(e.ident));
    PutTable(o, NewShdrs(t, y, Is64(e.ident)), ShdrWs(Is64(e.ident)));
  }

  /** Write the symbols. */
  method WriteSyms(o: Stream, syms0: seq<seq<Word>>, nshdrs: nat, c64: bool)
    requires TableFits(syms0, SymWs(c64))
    modifies o`data
    ensures o.data == old(o.data) + PackAll(NewSyms(syms0, nshdrs, c64), SymWs(c64), o.host != o.needswap)
  {
    var syms := new seq<Word>[|syms0|](k requires 0 <= k < |syms0| => syms0[k]);
    assert syms[..] == syms0;
    MakeAbsolute(syms, nshdrs, c64);
    WidthsAreOk(c64);
    PutTable(o, syms[..], SymWs(c64));
  }

  /** The writing half of the copier, up to the string table. */
  method WriteAll(o: Stream, e: Ehdr, t: Shtab, y: Symtab, names: seq<Byte>)
    requires Sound(e, t, y) && o.data == []
    modifies o
    ensures o.data == e.ident + OutEhdr(e) + OutShdrs(e, t, y) + names + OutSyms(e, t, y)
  {
    WriteHead(o, e, t, y, names);
    PutSyms(o, e, t, y);
  }

  method PutSyms(o: Stream, e: Ehdr, t: Shtab, y: Symtab)
    requires Sound(e, t, y) && (o.host != o.needswap) == IsLsb(e.ident)
    modifies o`data
    ensures o.data == old(o.data) + OutSyms(e, t, y)
  {
    WriteSyms(o, y.syms, |t.shdrs|, Is64(e.ident));
  }

  /** `pmelf_copy_symtab`. */
  method CopySymtab(elfi: Stream, elfo: Stream) returns (ok: bool)
    requires elfi != elfo && elfo.data == [] && Acceptable(elfi.data)
    modifies elfi, elfo
    ensures elfi.data == old(elfi.data)
    ensures ok <==> Parsed(elfi.data).Some?
    ensures ok ==> var Input(e, t, y) := Parsed(elfi.data).value; Sound(e, t, y) && elfo.data == OutOf(e, t, y)
  {
    var e := elfi.GetEhdr();
    if e.None? {
      return false;
    }
    var t := elfi.GetShtab(e.value);
    if t.None? {
      return false;
    }
    var y := elfi.GetSymtab(e.value, t.value);
    if y.None? {
      return false;
    }
    ParsedIsSound(elfi.data);
    ok := WriteCopy(elfi, elfo, e.value, t.value, y.value, SHSTRTAB);
  }

  /** The writing half of the copier. */
  method WriteCopy(elfi: Stream, elfo: Stream, e: Ehdr, t: Shtab, y: Symtab, names: seq<Byte>) returns (ok: bool)
    requires elfi != elfo && elfo.data == [] && Sound(e, t, y)
    requires elfi.c64 == Is64(e.ident) && SectionOf(elfi.data, y.strsh) == Some(y.strtab)
    modifies elfi`pos, elfo
    ensures ok && elfo.data == OutWith(e, t, y, names)
  {
    WriteAll(elfo, e, t, y, names);
    ok := CopySection(elfi, elfo, y.strsh, y.strtab);
  }

  /** The names of the symbols are copied from one file to the other. */
  method CopySection(elfi: Stream, elfo: Stream, sh: seq<Word>, ghost b: seq<Byte>) returns (ok: bool)
    requires elfi != elfo && Fits(sh, ShdrWs(elfi.c64)) && SectionOf(elfi.data, sh) == Some(b)
    modifies elfi`pos, elfo`data
    ensures ok && elfo.data == old(elfo.data) + b
  {
    var strtab := elfi.GetScn(sh);
    if strtab.None? {
      return false;
    }
    elfo.Write(strtab.value);
    return true;
  }
}
