/** The stream routines that read an object file step by step; each is proved against what the
    bytes of the file say. */
module ElfReader {
  import opened ElfCodec
  import opened ElfFile

  /** An open file on a host whose byte order is `host`; `needswap` and `c64` are set by the header. */
  class Stream {
    const host: bool
    var data: seq<Byte>
    var pos: nat
    var needswap: bool
    var c64: bool

    constructor (host: bool, data: seq<Byte>)
      ensures this.host == host && this.data == data && pos == 0
    {
      this.host, this.data, pos, needswap, c64 := host, data, 0, false, false;
    }

    method Seek(where: nat)
      modifies `pos
      ensures pos == where
    {
      pos := where;
    }

    method Read(n: nat) returns (r: Option<seq<Byte>>)
      modifies `pos
      ensures r == BytesAt(data, old(pos), n)
      ensures r.Some? ==> pos == old(pos) + n
    {
      if n == 0 {
        return Some([]);
      }
      if pos + n > |data| {
        return None;
      }
      r := Some(data[pos..pos + n]);
      pos := pos + n;
    }

    method Write(b: seq<Byte>)
      modifies `data
      ensures data == old(data) + b
    {
      data := data + b;
    }

    /** `pmelf_getshdr32/64`, `pmelf_getsym32/64`, and the fields of the file header. */
    method GetRecord(ws: seq<nat>) returns (r: Option<seq<Word>>)
      requires WidthsOk(ws)
      modifies `pos
      ensures r == RecordAt(data, old(pos), ws, host != needswap)
      ensures r.Some? ==> pos == old(pos) + Size(ws)
    {
      var b := Read(Size(ws));
      if b.None? {
        return None;
      }
      var f := ElfCodec.GetRecord(b.value, ws, host, needswap);
      return Some(f);
    }

    /** `pmelf_putshdr32/64`, `pmelf_putsym32/64`, and the fields of the file header. */
    method PutRecord(r: seq<Word>, ws: seq<nat>)
      requires WidthsOk(ws) && Fits(r, ws)
      modifies `data
      ensures data == old(data) + Pack(r, ws, host != needswap)
    {
      var b := ElfCodec.PutRecord(r, ws, host, needswap);
      Write(b);
    }

    /** Read the records of a table one after the other. */
    method GetTable(n: nat, ws: seq<nat>) returns (r: Option<seq<seq<Word>>>)
      requires WidthsOk(ws)
      modifies `pos
      ensures r == Records(data, old(pos), n, ws, host != needswap)
    {
      var rs := [];
      ghost var off := pos;
      for i := 0 to n
        invariant pos == Pos(off, i, ws) && Records(data, off, i, ws, host != needswap) == Some(rs)
      {
        var one := GetRecord(ws);
        if one.None? {
          RecordsFail(data, off, i + 1, n, ws, host != needswap);
          return None;
        }
        rs := rs + [one.value];
      }
      return Some(rs);
    }

    /** `pmelf_getehdr`. */
    method GetEhdr() returns (r: Option<Ehdr>)
      modifies `pos, `needswap, `c64
      ensures r == EhdrOf(data)
      ensures r.Some? ==> c64 == Is64(r.value.ident) && (host != needswap) == IsLsb(r.value.ident)
    {
      Seek(0);
      var b := Read(16);
      if b.None? {
        return None;
      }
      var ident := b.value;
      if ident[..4] != [0x7f, 0x45, 0x4c, 0x46] || ident[6] != 1 {
        return None;
      }
      needswap := host != (ident[5] == 1);
      if ident[4] != 1 && ident[4] != 2 {
        return None;
      }
      c64 := ident[4] == 2;
      var f := GetEhdrTop(c64);
      return if f.None? then None else Some(Ehdr(ident, f.value));
    }

    /** `getehdr32_top`, `getehdr64_top` and the check of the machine. */
    method GetEhdrTop(c64: bool) returns (r: Option<seq<Word>>)
      modifies `pos
      ensures r == match RecordAt(data, old(pos), EhdrWs(c64), host != needswap)
                   case None => None
                   case Some(f) => if FieldsOk(f, c64) then Some(f) else None
    {
      WidthsAreOk(c64);
      r := GetRecord(EhdrWs(c64));
      if r.Some? && !FieldsOk(r.value, c64) {
        r := None;
      }
    }

    /** `pmelf_getscn`: `len` bytes of a section, or all of it if that is 0.  The sums are unsigned
        machine words; a request that wraps around is refused. */
    method GetScnPart(sh: seq<Word>, offset: nat, len: nat) returns (r: Option<seq<Byte>>)
      requires |sh| == 10 && Val(sh[SH_OFFSET]) < W64 && Val(sh[SH_SIZE]) < W64 && offset < W64 && len < W64
      modifies `pos
      ensures r == PartOf(data, sh, offset, len)
    {
      var n := if len == 0 then Val(sh[SH_SIZE]) else len;
      var end := (offset + n) % W64;
      if end < offset || end < n {
        return None;
      }
      if end > Val(sh[SH_SIZE]) {
        return None;
      }
      Seek((Val(sh[SH_OFFSET]) + offset) % W64);
      r := Read(n);
    }

    /** A whole section. */
    method GetScn(sh: seq<Word>) returns (r: Option<seq<Byte>>)
      requires Fits(sh, ShdrWs(c64))
      modifies `pos
      ensures r == SectionOf(data, sh)
    {
      HeaderBelow(sh, c64);
      r := GetScnPart(sh, 0, 0);
    }

    /** `pmelf_getshtab`. */
    method GetShtab(e: Ehdr) returns (r: Option<Shtab>)
      requires EhdrOk(e) && c64 == Is64(e.ident) && (host != needswap) == IsLsb(e.ident)
      modifies `pos
      ensures r == ShtabOf(data, e)
    {
      var n := Val(e.f[E_SHNUM]);
      if n == 0 {
        return None;
      }
      Seek(Val(e.f[E_SHOFF]));
      WidthsAreOk(c64);
      var shdrs := GetTable(n, ShdrWs(c64));
      if shdrs.None? {
        return None;
      }
      var strtab := GetScn(shdrs.value[Val(e.f[E_SHSTRNDX])]);
      return if strtab.None? then None else Some(Shtab(shdrs.value, strtab.value));
    }

    /** `pmelf_getsymtab`. */
    method GetSymtab(e: Ehdr, t: Shtab) returns (r: Option<Symtab>)
      requires EhdrOk(e) && c64 == Is64(e.ident) && (host != needswap) == IsLsb(e.ident) && WellFormed(t, c64)
      modifies `pos
      ensures r == SymtabOf(data, e, t)
    {
      var found := FindSymHdrs(t, c64);
      if found.None? {
        return None;
      }
      r := GetSyms(found.value.0, found.value.1);
    }

    /** The part of `pmelf_getsymtab` behind the search for the headers. */
    method GetSyms(symsh: seq<Word>, strsh: seq<Word>) returns (r: Option<Symtab>)
      requires |symsh| == 10 && Fits(strsh, ShdrWs(c64))
      modifies `pos
      ensures r == SymtabAt(data, c64, host != needswap, symsh, strsh)
    {
      Seek(Val(symsh[SH_OFFSET]));
      WidthsAreOk(c64);
      var syms := GetTable(SymCount(Val(symsh[SH_SIZE]), c64), SymWs(c64));
      if syms.None? {
        return None;
      }
      var strtab := GetScn(strsh);
      return if strtab.None? then None else Some(Symtab(symsh, strsh, syms.value, strtab.value));
    }
  }

  const W64 := 0x1_0000_0000_0000_0000

  /** Part of a section: nothing if the request does not lie inside the section. */
  function PartOf(data: seq<Byte>, sh: seq<Word>, offset: nat, len: nat): Option<seq<Byte>>
    requires |sh| == 10
  {
    var n := if len == 0 then Val(sh[SH_SIZE]) else len;
    if offset + n > Val(sh[SH_SIZE]) then None else BytesAt(data, (Val(sh[SH_OFFSET]) + offset) % W64, n)
  }

  lemma HeaderBelow(sh: seq<Word>, c64: bool)
    requires Fits(sh, ShdrWs(c64))
    ensures Val(sh[SH_OFFSET]) < W64 && Val(sh[SH_SIZE]) < W64
  {
    Limits();
    WordOfVal(sh[SH_OFFSET]);
    WordOfVal(sh[SH_SIZE]);
  }

  lemma {:induction false} RecordsFail(data: seq<Byte>, off: nat, k: nat, n: nat, ws: seq<nat>, lsb: bool)
    requires k <= n && Records(data, off, k, ws, lsb).None?
    ensures Records(data, off, n, ws, lsb).None?
  {
    if k < n {
      RecordsFail(data, off, k, n - 1, ws, lsb);
    }
  }

  /** The scanning loop of `pmelf_find_symhdrs`. */
  method Scan(t: Shtab, c64: bool) returns (r: Search)
    requires ShtabFits(t, c64)
    ensures r == FindSymtab(t, |t.shdrs|)
  {
    r := Nothing;
    for i := 0 to |t.shdrs|
      invariant r != Failed && r == FindSymtab(t, i)
    {
      var sh := t.shdrs[i];
      if Val(sh[SH_TYPE]) == SHT_SYMTAB {
        if Val(sh[SH_NAME]) > |t.strtab| {
          FindFailed(t, i + 1, |t.shdrs|);
          return Failed;
        }
        if StrIs(t.strtab, Val(sh[SH_NAME]), SYMTAB_NAME) {
          if r.Hit? {
            FindFailed(t, i + 1, |t.shdrs|);
            return Failed;
          }
          r := Hit(i);
        }
      }
    }
  }

  /** `pmelf_find_symhdrs`. */
  method FindSymHdrs(t: Shtab, c64: bool) returns (r: Option<(seq<Word>, seq<Word>)>)
    requires WellFormed(t, c64)
    ensures r == SymHdrs(t, c64)
  {
    var hit := Scan(t, c64);
    if !hit.Hit? {
      return None;
    }
    HitIsSymtab(t, |t.shdrs|);
    var sh := t.shdrs[hit.idx];
    if Val(sh[SH_SIZE]) == 0 || (Val(sh[SH_ENTSIZE]) != 0 && Val(sh[SH_ENTSIZE]) != SymSize(c64))
       || !WholeSyms(Val(sh[SH_SIZE]), c64) {
      return None;
    }
    return Some((sh, t.shdrs[Val(sh[SH_LINK])]));
  }

  lemma {:induction false} FindFailed(t: Shtab, k: nat, n: nat)
    requires k <= n <= |t.shdrs| && forall i :: 0 <= i < |t.shdrs| ==> |t.shdrs[i]| == 10
    requires FindSymtab(t, k) == Failed
    ensures FindSymtab(t, n) == Failed
  {
    if k < n {
      FindFailed(t, k, n - 1);
    }
  }
}
