/** The reader of object files: header, section header table, symbol table.  For every routine
    there is a function that says what it finds in the bytes of a file. */
module ElfFile {
  import opened ElfCodec

  datatype Option<T> = None | Some(value: T)

  // ---- record layouts (System V ABI, chapter 4)

  /** The fields of the file header behind the 16 identification bytes. */
  function EhdrWs(c64: bool): (ws: seq<nat>)
    ensures |ws| == 13 && forall i :: 0 <= i < 13 ==> ws[i] == EhdrWidth(c64, i)
  {
    seq(13, i => EhdrWidth(c64, i))
  }

  /** Version and flags have 4 bytes, entry point and offsets are addresses, all others have 2. */
  function EhdrWidth(c64: bool, i: int): nat
  {
    if i == 2 || i == 6 then 4 else if 3 <= i <= 5 then (if c64 then 8 else 4) else 2
  }

  const E_MACHINE := 1
  const E_ENTRY := 3
  const E_PHOFF := 4
  const E_SHOFF := 5
  const E_PHENTSIZE := 8
  const E_PHNUM := 9
  const E_SHENTSIZE := 10
  const E_SHNUM := 11
  const E_SHSTRNDX := 12

  function ShdrWs(c64: bool): (ws: seq<nat>)
    ensures |ws| == 10 && forall i :: 0 <= i < 10 ==> ws[i] == ShdrWidth(c64, i)
  {
    seq(10, i => ShdrWidth(c64, i))
  }

  /** Name, type, link and info have 4 bytes. */
  function ShdrWidth(c64: bool, i: int): nat
  {
    if c64 && !(i <= 1 || i == 6 || i == 7) then 8 else 4
  }

  const SH_NAME := 0
  const SH_TYPE := 1
  const SH_OFFSET := 4
  const SH_SIZE := 5
  const SH_LINK := 6
  const SH_ENTSIZE := 9

  const SHT_SYMTAB := 2
  const SHT_STRTAB := 3

  /** name, value, size, info, other, shndx; in 64-bit files name, info, other, shndx, value, size. */
  function SymWs(c64: bool): (ws: seq<nat>)
    ensures |ws| == 6 && forall i :: 0 <= i < 6 ==> ws[i] == SymWidth(c64, i)
  {
    seq(6, i => SymWidth(c64, i))
  }

  function SymWidth(c64: bool, i: int): nat
  {
    if c64 then (if i == 0 then 4 else if i <= 2 then 1 else if i == 3 then 2 else 8)
    else if i <= 2 then 4 else if i <= 4 then 1 else 2
  }

  function StShndx(c64: bool): nat { if c64 then 3 else 5 }

  function EhdrSize(c64: bool): nat { if c64 then 64 else 52 }
  function ShdrSize(c64: bool): nat { if c64 then 64 else 40 }
  function SymSize(c64: bool): nat { if c64 then 24 else 16 }

  /** How many symbols fit a size, and does the size leave no rest? */
  function SymCount(size: nat, c64: bool): nat { if c64 then size / 24 else size / 16 }
  predicate WholeSyms(size: nat, c64: bool) { if c64 then size % 24 == 0 else size % 16 == 0 }

  lemma WidthsAreOk(c64: bool)
    ensures WidthsOk(EhdrWs(c64)) && WidthsOk(ShdrWs(c64)) && WidthsOk(SymWs(c64))
  {
  }

  lemma ShdrSizes(c64: bool)
    ensures Size(ShdrWs(c64)) == ShdrSize(c64)
  {
    SizeOf10(ShdrWs(c64));
  }

  lemma EhdrSizes(c64: bool)
    ensures Size(EhdrWs(c64)) == EhdrSize(c64) - 16
  {
    SizeSplit(EhdrWs(c64), 10);
    SizeOf10(EhdrWs(c64)[..10]);
    SizeOf3(EhdrWs(c64)[10..]);
  }

  lemma SymSizes(c64: bool)
    ensures Size(SymWs(c64)) == SymSize(c64)
  {
    SizeSplit(SymWs(c64), 3);
    SizeOf3(SymWs(c64)[..3]);
    SizeOf3(SymWs(c64)[3..]);
  }

  lemma SizeOf3(w: seq<nat>)
    requires |w| == 3
    ensures Size(w) == w[0] + w[1] + w[2]
  {
    var a, b, c := w[1..], w[2..], w[3..];
    assert a[1..] == b && b[1..] == c == [];
    assert Size(b) == w[2] + Size(c);
    assert Size(a) == w[1] + Size(b);
  }

  lemma SizeOf10(w: seq<nat>)
    requires |w| == 10
    ensures Size(w) == w[0] + w[1] + w[2] + w[3] + w[4] + w[5] + w[6] + w[7] + w[8] + w[9]
  {
    SizeSplit(w, 3);
    SizeOf3(w[..3]);
    SizeSplit(w[3..], 3);
    SizeOf3(w[3..][..3]);
    SizeSplit(w[3..][3..], 3);
    SizeOf3(w[3..][3..][..3]);
    var d := w[3..][3..][3..];
    assert d == [w[9]] && d[1..] == [];
  }

  lemma {:induction false} SizeSplit(w: seq<nat>, k: nat)
    requires k <= |w|
    ensures Size(w) == Size(w[..k]) + Size(w[k..])
  {
    if k > 0 {
      SizeSplit(w[1..], k - 1);
      assert w[1..][..k - 1] == w[..k][1..] && w[1..][k - 1..] == w[k..];
    } else {
      assert w[..0] == [] && w[0..] == w;
    }
  }

  // ---- what the reader finds

  /** The file header: the identification bytes and the other fields. */
  datatype Ehdr = Ehdr(ident: seq<Byte>, f: seq<Word>)

  predicate Is64(ident: seq<Byte>) requires |ident| == 16 { ident[4] == 2 }
  predicate IsLsb(ident: seq<Byte>) requires |ident| == 16 { ident[5] == 1 }

  /** Magic number, version and class. */
  predicate IdentOk(ident: seq<Byte>)
    requires |ident| == 16
  {
    ident[..4] == [0x7f, 0x45, 0x4c, 0x46] && ident[6] == 1 && (ident[4] == 1 || ident[4] == 2)
  }

  /** The checks on the size fields, and the supported machines. */
  predicate FieldsOk(f: seq<Word>, c64: bool)
    requires |f| == 13
  {
    && (Val(f[E_SHNUM]) > 0 ==> Val(f[E_SHENTSIZE]) == ShdrSize(c64))
    && (Val(f[E_PHNUM]) > 0 ==> Val(f[E_PHENTSIZE]) == if c64 then 56 else 32)
    && (Val(f[E_SHNUM]) > 0 ==> 0 < Val(f[E_SHSTRNDX]) < Val(f[E_SHNUM]))
    && Val(f[E_MACHINE]) in {2, 3, 4, 20, 62}
  }

  predicate EhdrOk(e: Ehdr)
  {
    |e.ident| == 16 && IdentOk(e.ident) && Fits(e.f, EhdrWs(Is64(e.ident))) && FieldsOk(e.f, Is64(e.ident))
  }

  /** Do the bytes `b` lie in the file at `off`? */
  predicate Holds(data: seq<Byte>, off: nat, b: seq<Byte>)
  {
    off + |b| <= |data| && data[off..off + |b|] == b
  }

  /** Reading; no bytes at all are read from anywhere, also from behind the end. */
  function BytesAt(data: seq<Byte>, off: nat, n: nat): (r: Option<seq<Byte>>)
    ensures r.Some? ==> |r.value| == n && (n > 0 ==> Holds(data, off, r.value))
  {
    if n == 0 then Some([]) else if off + n <= |data| then Some(data[off..off + n]) else None
  }

  function RecordAt(data: seq<Byte>, off: nat, ws: seq<nat>, lsb: bool): (r: Option<seq<Word>>)
    ensures r.Some? ==> Fits(r.value, ws)
  {
    match BytesAt(data, off, Size(ws))
    case None => None
    case Some(b) => Some(Unpack(b, ws, lsb))
  }

  /** Where record `n` of a table starts. */
  function Pos(off: nat, n: nat, ws: seq<nat>): nat
  {
    if n == 0 then off else Pos(off, n - 1, ws) + Size(ws)
  }

  /** The first `n` records of a table. */
  function Records(data: seq<Byte>, off: nat, n: nat, ws: seq<nat>, lsb: bool): (r: Option<seq<seq<Word>>>)
    ensures r.Some? ==> |r.value| == n && forall k :: 0 <= k < n ==> Fits(r.value[k], ws)
  {
    if n == 0 then Some([])
    else
      match Records(data, off, n - 1, ws, lsb)
      case None => None
      case Some(rs) =>
        match RecordAt(data, Pos(off, n - 1, ws), ws, lsb)
        case None => None
        case Some(r) => Some(rs + [r])
  }

  function EhdrOf(data: seq<Byte>): (r: Option<Ehdr>)
    ensures r.Some? ==> EhdrOk(r.value)
  {
    match BytesAt(data, 0, 16)
    case None => None
    case Some(ident) =>
      if !IdentOk(ident) then None
      else
        match RecordAt(data, 16, EhdrWs(Is64(ident)), IsLsb(ident))
        case None => None
        case Some(f) => if FieldsOk(f, Is64(ident)) then Some(Ehdr(ident, f)) else None
  }

  /** `pmelf_getscn` for a whole section. */
  function SectionOf(data: seq<Byte>, sh: seq<Word>): Option<seq<Byte>>
    requires |sh| == 10
  {
    BytesAt(data, Val(sh[SH_OFFSET]), Val(sh[SH_SIZE]))
  }

  /** A section header table with the string table of the section names. */
  datatype Shtab = Shtab(shdrs: seq<seq<Word>>, strtab: seq<Byte>)

  predicate ShtabFits(t: Shtab, c64: bool)
  {
    t.shdrs != [] && forall k :: 0 <= k < |t.shdrs| ==> Fits(t.shdrs[k], ShdrWs(c64))
  }

  function ShtabOf(data: seq<Byte>, e: Ehdr): (r: Option<Shtab>)
    requires EhdrOk(e)
    ensures r.Some? ==> ShtabFits(r.value, Is64(e.ident))
  {
    var n := Val(e.f[E_SHNUM]);
    if n == 0 then None
    else
      match Records(data, Val(e.f[E_SHOFF]), n, ShdrWs(Is64(e.ident)), IsLsb(e.ident))
      case None => None
      case Some(shdrs) =>
        match SectionOf(data, shdrs[Val(e.f[E_SHSTRNDX])])
        case None => None
        case Some(strtab) => Some(Shtab(shdrs, strtab))
  }

  const SYMTAB_NAME: seq<Byte> := [0x2e, 0x73, 0x79, 0x6d, 0x74, 0x61, 0x62]

  /** The string at an offset of a string table is the given one. */
  predicate StrIs(strtab: seq<Byte>, off: nat, s: seq<Byte>)
  {
    Holds(strtab, off, s + [0])
  }

  datatype Search = Failed | Nothing | Hit(idx: nat)

  /** Look for the symbol table among the first `n` headers. */
  function FindSymtab(t: Shtab, n: nat): (r: Search)
    requires n <= |t.shdrs| && forall k :: 0 <= k < |t.shdrs| ==> |t.shdrs[k]| == 10
    ensures r.Hit? ==> r.idx < n
  {
    if n == 0 then Nothing
    else
      var r, sh := FindSymtab(t, n - 1), t.shdrs[n - 1];
      if r == Failed || Val(sh[SH_TYPE]) != SHT_SYMTAB then r
      else if Val(sh[SH_NAME]) > |t.strtab| then Failed
      else if !StrIs(t.strtab, Val(sh[SH_NAME]), SYMTAB_NAME) then r
      else if r.Hit? then Failed
      else Hit(n - 1)
  }

  /** What the code takes for granted about section names and links: names of symbol tables end
      inside the string table, and the table named `.symtab` links to a section. */
  ghost predicate WellFormed(t: Shtab, c64: bool)
  {
    && ShtabFits(t, c64) && t.strtab != [] && t.strtab[|t.strtab| - 1] == 0
    && forall k :: 0 <= k < |t.shdrs| && Val(t.shdrs[k][SH_TYPE]) == SHT_SYMTAB ==>
         Val(t.shdrs[k][SH_NAME]) != |t.strtab|
         && (StrIs(t.strtab, Val(t.shdrs[k][SH_NAME]), SYMTAB_NAME) ==> Val(t.shdrs[k][SH_LINK]) < |t.shdrs|)
  }

  /** A symbol table with its header, the header of its string table, and that table. */
  datatype Symtab = Symtab(symsh: seq<Word>, strsh: seq<Word>, syms: seq<seq<Word>>, strtab: seq<Byte>)

  predicate SymshOk(sh: seq<Word>, c64: bool)
    requires |sh| == 10
  {
    && Val(sh[SH_SIZE]) != 0
    && (Val(sh[SH_ENTSIZE]) == 0 || Val(sh[SH_ENTSIZE]) == SymSize(c64))
    && WholeSyms(Val(sh[SH_SIZE]), c64)
  }

  /** What `pmelf_find_symhdrs` hands out: the two headers, if all checks pass. */
  function SymHdrs(t: Shtab, c64: bool): (r: Option<(seq<Word>, seq<Word>)>)
    requires WellFormed(t, c64)
    ensures r.Some? ==> Fits(r.value.0, ShdrWs(c64)) && Fits(r.value.1, ShdrWs(c64))
  {
    match FindSymtab(t, |t.shdrs|)
    case Failed | Nothing => None
    case Hit(idx) =>
      HitIsSymtab(t, |t.shdrs|);
      var symsh := t.shdrs[idx];
      if SymshOk(symsh, c64) then Some((symsh, t.shdrs[Val(symsh[SH_LINK])])) else None
  }

  /** The symbols and names that two headers point to. */
  function SymtabAt(data: seq<Byte>, c64: bool, lsb: bool, symsh: seq<Word>, strsh: seq<Word>): Option<Symtab>
    requires |symsh| == |strsh| == 10
  {
    match Records(data, Val(symsh[SH_OFFSET]), SymCount(Val(symsh[SH_SIZE]), c64), SymWs(c64), lsb)
    case None => None
    case Some(syms) =>
      match SectionOf(data, strsh)
      case None => None
      case Some(strtab) => Some(Symtab(symsh, strsh, syms, strtab))
  }

  function SymtabOf(data: seq<Byte>, e: Ehdr, t: Shtab): Option<Symtab>
    requires EhdrOk(e) && WellFormed(t, Is64(e.ident))
  {
    match SymHdrs(t, Is64(e.ident))
    case None => None
    case Some(h) => SymtabAt(data, Is64(e.ident), IsLsb(e.ident), h.0, h.1)
  }

  lemma {:induction false} HitIsSymtab(t: Shtab, n: nat)
    requires n <= |t.shdrs| && forall k :: 0 <= k < |t.shdrs| ==> |t.shdrs[k]| == 10
    ensures FindSymtab(t, n).Hit? ==>
      var sh := t.shdrs[FindSymtab(t, n).idx];
      Val(sh[SH_TYPE]) == SHT_SYMTAB && StrIs(t.strtab, Val(sh[SH_NAME]), SYMTAB_NAME)
  {
    if n > 0 {
      HitIsSymtab(t, n - 1);
    }
  }
}
