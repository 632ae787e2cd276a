/** What the reader and the copier of object files do, in terms of the bytes of a file: at which offset
    each field lies, in which order its bytes count, and which files are accepted (System V ABI,
    chapter 4). */
module ElfBytes {
  import opened ElfCodec
  import opened ElfFile
  import opened ElfReader
  import opened ElfCopy
  import opened Arith

  // ---- numbers in a file

  /** The number in `w` bytes at `p`, the lowest byte first. */
  function Little(data: seq<Byte>, p: nat, w: nat): nat
    requires p + w <= |data|
    decreases w
  {
    if w == 0 then 0 else data[p] + 256 * Little(data, p + 1, w - 1)
  }

  /** The number in `w` bytes at `p`, the highest byte first. */
  function Big(data: seq<Byte>, p: nat, w: nat): nat
    requires p + w <= |data|
  {
    if w == 0 then 0 else 256 * Big(data, p, w - 1) + data[p + w - 1]
  }

  /** Byte 5 says which order the file has: 1 is ELFDATA2LSB. */
  function NumberAt(data: seq<Byte>, p: nat, w: nat): nat
    requires |data| > 5 && p + w <= |data|
  {
    if data[5] == 1 then Little(data, p, w) else Big(data, p, w)
  }

  lemma {:induction false} LittleIsVal(data: seq<Byte>, p: nat, w: nat)
    requires p + w <= |data|
    ensures Little(data, p, w) == Val(data[p..p + w])
    decreases w
  {
    if w > 0 {
      LittleIsVal(data, p + 1, w - 1);
      assert data[p..p + w][1..] == data[p + 1..p + w];
    }
  }

  lemma {:induction false} BigIsVal(data: seq<Byte>, p: nat, w: nat)
    requires p + w <= |data|
    ensures Big(data, p, w) == Val(Reverse(data[p..p + w]))
  {
    if w > 0 {
      BigIsVal(data, p, w - 1);
      assert Reverse(data[p..p + w])[1..] == Reverse(data[p..p + w - 1]);
    }
  }

  lemma NumberIsVal(data: seq<Byte>, p: nat, w: nat)
    requires |data| > 5 && p + w <= |data|
    ensures NumberAt(data, p, w) == Val(InOrder(data[p..p + w], data[5] == 1))
  {
    LittleIsVal(data, p, w);
    BigIsVal(data, p, w);
  }

  // ---- fields of records

  /** Where field `i` of a record starts. */
  function Offset(ws: seq<nat>, i: nat): nat
    requires i <= |ws|
  {
    if i == 0 then 0 else Offset(ws, i - 1) + ws[i - 1]
  }

  lemma {:induction false} OffsetInTail(ws: seq<nat>, i: nat)
    requires 0 < i <= |ws|
    ensures Offset(ws, i) == ws[0] + Offset(ws[1..], i - 1)
  {
    if i > 1 {
      OffsetInTail(ws, i - 1);
      assert ws[i - 1] == ws[1..][i - 2];
    }
  }

  /** The bytes of a field, wherever they are. */
  predicate Slice(f: seq<Byte>, b: seq<Byte>, p: nat, w: nat)
  {
    |f| == w && p + w <= |b| && forall j :: 0 <= j < |f| ==> f[j] == b[p + j]
  }

  lemma SliceOfTail(f: seq<Byte>, b: seq<Byte>, n: nat, p: nat, w: nat)
    requires n <= |b| && Slice(f, b[n..], p, w)
    ensures Slice(f, b, n + p, w)
  {
  }

  lemma {:induction false} UnpackedField(b: seq<Byte>, ws: seq<nat>, lsb: bool, i: nat) returns (f: seq<Byte>)
    requires |b| == Size(ws) && i < |ws|
    ensures Slice(f, b, Offset(ws, i), ws[i]) && Unpack(b, ws, lsb)[i] == InOrder(f, lsb)
  {
    if i > 0 {
      f := UnpackedField(b[ws[0]..], ws[1..], lsb, i - 1);
      OffsetInTail(ws, i);
      SliceOfTail(f, b, ws[0], Offset(ws[1..], i - 1), ws[i]);
    } else {
      f := b[..ws[0]];
    }
  }

  /** A field of a record of the file is the number at its place. */
  predicate FieldAt(data: seq<Byte>, f: Word, p: nat, w: nat)
  {
    5 < |data| && p + w <= |data| && Val(f) == NumberAt(data, p, w)
  }

  lemma SliceOfSlice(data: seq<Byte>, f: seq<Byte>, b: seq<Byte>, off: nat, p: nat, w: nat)
    requires Slice(b, data, off, |b|) && Slice(f, b, p, w)
    ensures Slice(f, data, off + p, w)
  {
  }

  lemma SliceIsRange(f: seq<Byte>, data: seq<Byte>, p: nat, w: nat)
    requires Slice(f, data, p, w)
    ensures f == data[p..p + w]
  {
  }

  lemma NumberOfSlice(data: seq<Byte>, f: seq<Byte>, p: nat, w: nat)
    requires |data| > 5 && Slice(f, data, p, w)
    ensures FieldAt(data, InOrder(f, data[5] == 1), p, w)
  {
    SliceIsRange(f, data, p, w);
    NumberIsVal(data, p, w);
  }

  lemma SliceIsField(data: seq<Byte>, f: seq<Byte>, b: seq<Byte>, off: nat, p: nat, w: nat)
    requires |data| > 5 && Slice(b, data, off, |b|) && Slice(f, b, p, w)
    ensures FieldAt(data, InOrder(f, data[5] == 1), off + p, w)
  {
    SliceOfSlice(data, f, b, off, p, w);
    NumberOfSlice(data, f, off + p, w);
  }

  lemma RecordIs(data: seq<Byte>, off: nat, ws: seq<nat>, lsb: bool) returns (b: seq<Byte>)
    requires Size(ws) > 0 && RecordAt(data, off, ws, lsb).Some?
    ensures |b| == Size(ws) && Slice(b, data, off, |b|) && RecordAt(data, off, ws, lsb).value == Unpack(b, ws, lsb)
  {
    b := BytesAt(data, off, Size(ws)).value;
  }

  lemma RecordField(data: seq<Byte>, off: nat, ws: seq<nat>, i: nat)
    requires |data| > 5 && i < |ws| && Size(ws) > 0 && RecordAt(data, off, ws, data[5] == 1).Some?
    ensures FieldAt(data, RecordAt(data, off, ws, data[5] == 1).value[i], off + Offset(ws, i), ws[i])
  {
    var b := RecordIs(data, off, ws, data[5] == 1);
    var f := UnpackedField(b, ws, data[5] == 1, i);
    SliceIsField(data, f, b, off, Offset(ws, i), ws[i]);
  }

  lemma OffsetNext(ws: seq<nat>, i: nat)
    requires i < |ws|
    ensures Offset(ws, i + 1) == Offset(ws, i) + ws[i]
  {
  }

  lemma EhdrOffsets(c64: bool)
    ensures var ws := EhdrWs(c64); Offset(ws, 1) == 2 && Offset(ws, 5) == if c64 then 24 else 16
    ensures var ws, d := EhdrWs(c64), if c64 then 12 else 0;
      Offset(ws, 8) == 26 + d && Offset(ws, 9) == 28 + d && Offset(ws, 10) == 30 + d && Offset(ws, 11) == 32 + d
      && Offset(ws, 12) == 34 + d
  {
    var ws := EhdrWs(c64);
    OffsetNext(ws, 0);
    OffsetNext(ws, 1);
    OffsetNext(ws, 2);
    OffsetNext(ws, 3);
    OffsetNext(ws, 4);
    OffsetNext(ws, 5);
    OffsetNext(ws, 6);
    OffsetNext(ws, 7);
    OffsetNext(ws, 8);
    OffsetNext(ws, 9);
    OffsetNext(ws, 10);
    OffsetNext(ws, 11);
  }

  lemma ShdrOffsets(c64: bool)
    ensures var ws := ShdrWs(c64); Offset(ws, 0) == 0 && Offset(ws, 1) == 4
    ensures var ws := ShdrWs(c64); Offset(ws, 4) == if c64 then 24 else 16
    ensures var ws := ShdrWs(c64); Offset(ws, 5) == if c64 then 32 else 20
    ensures var ws := ShdrWs(c64); Offset(ws, 6) == if c64 then 40 else 24
    ensures var ws := ShdrWs(c64); Offset(ws, 9) == if c64 then 56 else 36
  {
    var ws := ShdrWs(c64);
    OffsetNext(ws, 0);
    OffsetNext(ws, 1);
    OffsetNext(ws, 2);
    OffsetNext(ws, 3);
    OffsetNext(ws, 4);
    OffsetNext(ws, 5);
    OffsetNext(ws, 6);
    OffsetNext(ws, 7);
    OffsetNext(ws, 8);
  }

  lemma SymOffsets(c64: bool)
    ensures var ws := SymWs(c64); Offset(ws, 0) == 0 && Offset(ws, 1) == 4
    ensures var ws := SymWs(c64);
      if c64 then Offset(ws, 2) == 5 && Offset(ws, 3) == 6 && Offset(ws, 4) == 8 && Offset(ws, 5) == 16
      else Offset(ws, 2) == 8 && Offset(ws, 3) == 12 && Offset(ws, 4) == 13 && Offset(ws, 5) == 14
  {
    var ws := SymWs(c64);
    OffsetNext(ws, 0);
    OffsetNext(ws, 1);
    OffsetNext(ws, 2);
    OffsetNext(ws, 3);
    OffsetNext(ws, 4);
  }

  // ---- the file header

  /** The fields of a header that are used, in a file of either class. */
  predicate HeaderIs(data: seq<Byte>, f: seq<Word>)
  {
    && |f| == 13 && |data| > 5 && FieldAt(data, f[E_MACHINE], 18, 2)
    && if data[4] == 2 then
         && FieldAt(data, f[E_SHOFF], 40, 8) && FieldAt(data, f[E_PHENTSIZE], 54, 2)
         && FieldAt(data, f[E_PHNUM], 56, 2) && FieldAt(data, f[E_SHENTSIZE], 58, 2)
         && FieldAt(data, f[E_SHNUM], 60, 2) && FieldAt(data, f[E_SHSTRNDX], 62, 2)
       else
         && FieldAt(data, f[E_SHOFF], 32, 4) && FieldAt(data, f[E_PHENTSIZE], 42, 2)
         && FieldAt(data, f[E_PHNUM], 44, 2) && FieldAt(data, f[E_SHENTSIZE], 46, 2)
         && FieldAt(data, f[E_SHNUM], 48, 2) && FieldAt(data, f[E_SHSTRNDX], 50, 2)
  }

  lemma FieldsOfHeader(data: seq<Byte>)
    requires |data| >= 16 && RecordAt(data, 16, EhdrWs(data[4] == 2), data[5] == 1).Some?
    ensures HeaderIs(data, RecordAt(data, 16, EhdrWs(data[4] == 2), data[5] == 1).value)
  {
    var c64 := data[4] == 2;
    var ws := EhdrWs(c64);
    EhdrOffsets(c64);
    EhdrSizes(c64);
    RecordField(data, 16, ws, E_MACHINE);
    RecordField(data, 16, ws, E_SHOFF);
    RecordField(data, 16, ws, E_PHENTSIZE);
    RecordField(data, 16, ws, E_PHNUM);
    RecordField(data, 16, ws, E_SHENTSIZE);
    RecordField(data, 16, ws, E_SHNUM);
    RecordField(data, 16, ws, E_SHSTRNDX);
  }

  /** The header that is read holds the numbers at these places of the file. */
  lemma HeaderInBytes(data: seq<Byte>)
    requires EhdrOf(data).Some?
    ensures var e := EhdrOf(data).value; |data| >= 16 && e.ident == data[..16] && HeaderIs(data, e.f)
  {
    FieldsOfHeader(data);
  }

  /** The sizes that a header states, if it states any, are those of the class. */
  predicate SizesOk(shnum: nat, shentsize: nat, shstrndx: nat, phnum: nat, phentsize: nat, shdr: nat, phdr: nat)
  {
    && (shnum > 0 ==> shentsize == shdr && 0 < shstrndx < shnum)
    && (phnum > 0 ==> phentsize == phdr)
  }

  /** The header is one for SPARC, i386, m68k, PowerPC or x86-64, and its sizes are right. */
  predicate Supported(data: seq<Byte>)
    requires |data| >= if |data| > 4 && data[4] == 2 then 64 else 52
  {
    && NumberAt(data, 18, 2) in [2, 3, 4, 20, 62]
    && if data[4] == 2 then
         SizesOk(NumberAt(data, 60, 2), NumberAt(data, 58, 2), NumberAt(data, 62, 2),
                 NumberAt(data, 56, 2), NumberAt(data, 54, 2), 64, 56)
       else
         SizesOk(NumberAt(data, 48, 2), NumberAt(data, 46, 2), NumberAt(data, 50, 2),
                 NumberAt(data, 44, 2), NumberAt(data, 42, 2), 40, 32)
  }

  /** The file starts with the magic number, version 1, class 1 or 2, and a supported header. */
  predicate Recognised(data: seq<Byte>)
  {
    && |data| >= 52 && data[0] == 0x7f && data[1] == 0x45 && data[2] == 0x4c && data[3] == 0x46 && data[6] == 1
    && (data[4] == 1 || (data[4] == 2 && |data| >= 64)) && Supported(data)
  }

  lemma FieldsAreSupported(data: seq<Byte>, f: seq<Word>)
    requires |data| >= (if |data| > 4 && data[4] == 2 then 64 else 52) && HeaderIs(data, f)
    ensures FieldsOk(f, data[4] == 2) <==> Supported(data)
  {
  }

  lemma IdentInBytes(data: seq<Byte>)
    requires |data| >= 16
    ensures IdentOk(data[..16]) <==>
      data[0] == 0x7f && data[1] == 0x45 && data[2] == 0x4c && data[3] == 0x46 && data[6] == 1
      && (data[4] == 1 || data[4] == 2)
  {
    assert data[..16][..4] == data[..4];
    assert data[..4] == [data[0], data[1], data[2], data[3]];
  }

  /** Exactly these files are accepted. */
  lemma AcceptedExactlyWhen(data: seq<Byte>)
    ensures EhdrOf(data).Some? <==> Recognised(data)
  {
    if |data| >= 16 {
      IdentInBytes(data);
      EhdrSizes(data[4] == 2);
      var r := RecordAt(data, 16, EhdrWs(data[4] == 2), data[5] == 1);
      if r.Some? {
        FieldsOfHeader(data);
        FieldsAreSupported(data, r.value);
      }
    }
  }

  // ---- section headers

  /** The fields of a section header at `p` that are used. */
  predicate ShdrIs(data: seq<Byte>, p: nat, f: seq<Word>)
  {
    && |f| == 10 && |data| > 5 && FieldAt(data, f[SH_NAME], p, 4) && FieldAt(data, f[SH_TYPE], p + 4, 4)
    && if data[4] == 2 then
         && FieldAt(data, f[SH_OFFSET], p + 24, 8) && FieldAt(data, f[SH_SIZE], p + 32, 8)
         && FieldAt(data, f[SH_LINK], p + 40, 4) && FieldAt(data, f[SH_ENTSIZE], p + 56, 8)
       else
         && FieldAt(data, f[SH_OFFSET], p + 16, 4) && FieldAt(data, f[SH_SIZE], p + 20, 4)
         && FieldAt(data, f[SH_LINK], p + 24, 4) && FieldAt(data, f[SH_ENTSIZE], p + 36, 4)
  }

  lemma FieldsOfShdr(data: seq<Byte>, p: nat)
    requires |data| > 5 && RecordAt(data, p, ShdrWs(data[4] == 2), data[5] == 1).Some?
    ensures ShdrIs(data, p, RecordAt(data, p, ShdrWs(data[4] == 2), data[5] == 1).value)
  {
    var c64 := data[4] == 2;
    var ws := ShdrWs(c64);
    ShdrOffsets(c64);
    ShdrSizes(c64);
    RecordField(data, p, ws, SH_NAME);
    RecordField(data, p, ws, SH_TYPE);
    RecordField(data, p, ws, SH_OFFSET);
    RecordField(data, p, ws, SH_SIZE);
    RecordField(data, p, ws, SH_LINK);
    RecordField(data, p, ws, SH_ENTSIZE);
  }

  /** Record `k` of a table that was read is the one at its place. */
  lemma {:induction false} RecordOfTable(data: seq<Byte>, off: nat, n: nat, ws: seq<nat>, lsb: bool, k: nat)
    requires Records(data, off, n, ws, lsb).Some? && k < n
    ensures RecordAt(data, Pos(off, k, ws), ws, lsb) == Some(Records(data, off, n, ws, lsb).value[k])
  {
    if k < n - 1 {
      RecordOfTable(data, off, n - 1, ws, lsb, k);
    }
  }

  lemma {:induction false} PosOfShdr(off: nat, k: nat, c64: bool)
    ensures Pos(off, k, ShdrWs(c64)) == if c64 then off + 64 * k else off + 40 * k
  {
    if k > 0 {
      PosOfShdr(off, k - 1, c64);
      ShdrSizes(c64);
    }
  }

  lemma {:induction false} PosOfSym(off: nat, k: nat, c64: bool)
    ensures Pos(off, k, SymWs(c64)) == if c64 then off + 24 * k else off + 16 * k
  {
    if k > 0 {
      PosOfSym(off, k - 1, c64);
      SymSizes(c64);
    }
  }

  lemma {:induction false} RecordsExactlyWhen(data: seq<Byte>, off: nat, n: nat, ws: seq<nat>, lsb: bool)
    requires Size(ws) > 0
    ensures Records(data, off, n, ws, lsb).Some? <==> n == 0 || off + n * Size(ws) <= |data|
  {
    if n > 0 {
      RecordsExactlyWhen(data, off, n - 1, ws, lsb);
      PosIs(off, n - 1, ws);
      OneMore(n - 1, Size(ws));
    }
  }

  predicate SectionInFile(data: seq<Byte>, sh: seq<Word>)
    requires |sh| == 10
  {
    Val(sh[SH_SIZE]) == 0 || Val(sh[SH_OFFSET]) + Val(sh[SH_SIZE]) <= |data|
  }

  /** The section headers are read exactly if there are any, and they and the section of their names lie in
      the file. */
  lemma ShtabExactlyWhen(data: seq<Byte>, e: Ehdr)
    requires EhdrOk(e)
    ensures var n, size := Val(e.f[E_SHNUM]), if Is64(e.ident) then 64 else 40;
      && (ShtabOf(data, e).Some? ==> n > 0 && Val(e.f[E_SHOFF]) + n * size <= |data|)
      && (n > 0 && Val(e.f[E_SHOFF]) + n * size <= |data| ==>
            var rs := Records(data, Val(e.f[E_SHOFF]), n, ShdrWs(Is64(e.ident)), IsLsb(e.ident));
            && rs.Some? && Val(e.f[E_SHSTRNDX]) < n
            && (ShtabOf(data, e).Some? <==> SectionInFile(data, rs.value[Val(e.f[E_SHSTRNDX])])))
  {
    ShdrSizes(Is64(e.ident));
    RecordsExactlyWhen(data, Val(e.f[E_SHOFF]), Val(e.f[E_SHNUM]), ShdrWs(Is64(e.ident)), IsLsb(e.ident));
  }

  /** What the table of section headers consists of. */
  lemma ShtabParts(data: seq<Byte>, e: Ehdr)
    requires EhdrOk(e) && ShtabOf(data, e).Some?
    ensures var t := ShtabOf(data, e).value;
      && Records(data, Val(e.f[E_SHOFF]), Val(e.f[E_SHNUM]), ShdrWs(Is64(e.ident)), IsLsb(e.ident)) == Some(t.shdrs)
      && |t.shdrs| == Val(e.f[E_SHNUM]) && Val(e.f[E_SHSTRNDX]) < |t.shdrs|
      && SectionOf(data, t.shdrs[Val(e.f[E_SHSTRNDX])]) == Some(t.strtab)
  {
  }

  /** The place of section header `k` of a table. */
  function ShdrPlace(data: seq<Byte>, off: nat, k: nat): nat
    requires |data| > 5
  {
    if data[4] == 2 then off + 64 * k else off + 40 * k
  }

  lemma ShdrInBytes(data: seq<Byte>, off: nat, n: nat, k: nat)
    requires |data| > 5 && k < n && Records(data, off, n, ShdrWs(data[4] == 2), data[5] == 1).Some?
    ensures ShdrIs(data, ShdrPlace(data, off, k), Records(data, off, n, ShdrWs(data[4] == 2), data[5] == 1).value[k])
  {
    RecordOfTable(data, off, n, ShdrWs(data[4] == 2), data[5] == 1, k);
    PosOfShdr(off, k, data[4] == 2);
    FieldsOfShdr(data, Pos(off, k, ShdrWs(data[4] == 2)));
  }

  lemma SectionInBytes(data: seq<Byte>, sh: seq<Word>)
    requires |sh| == 10 && SectionOf(data, sh).Some?
    ensures SectionIs(data, sh, SectionOf(data, sh).value)
  {
  }

  /** The section headers lie one behind the other where the header says, and the names are the section
      that it says. */
  lemma ShtabInBytes(data: seq<Byte>, k: nat)
    requires EhdrOf(data).Some? && ShtabOf(data, EhdrOf(data).value).Some?
    requires k < |ShtabOf(data, EhdrOf(data).value).value.shdrs|
    ensures var e := EhdrOf(data).value; var t := ShtabOf(data, e).value;
      && |data| > 5 && |t.shdrs| == Val(e.f[E_SHNUM]) && Val(e.f[E_SHSTRNDX]) < |t.shdrs|
      && ShdrIs(data, ShdrPlace(data, Val(e.f[E_SHOFF]), k), t.shdrs[k])
      && SectionIs(data, t.shdrs[Val(e.f[E_SHSTRNDX])], t.strtab)
  {
    var e := EhdrOf(data).value;
    HeaderInBytes(data);
    ShtabParts(data, e);
    ShdrInBytes(data, Val(e.f[E_SHOFF]), Val(e.f[E_SHNUM]), k);
    SectionInBytes(data, ShtabOf(data, e).value.shdrs[Val(e.f[E_SHSTRNDX])]);
  }

  /** The contents of a section. */
  predicate SectionIs(data: seq<Byte>, sh: seq<Word>, b: seq<Byte>)
  {
    && |sh| == 10 && |b| == Val(sh[SH_SIZE])
    && (b != [] ==> Val(sh[SH_OFFSET]) + |b| <= |data| && b == data[Val(sh[SH_OFFSET])..Val(sh[SH_OFFSET]) + |b|])
  }

  lemma SliceOfSection(data: seq<Byte>, p: nat, b: seq<Byte>, offset: nat, n: nat)
    requires Holds(data, p, b) && offset + n <= |b|
    ensures p + offset + n <= |data| && data[p + offset..p + offset + n] == b[offset..offset + n]
  {
    assert Slice(b, data, p, |b|);
    assert Slice(b[offset..offset + n], b, offset, n);
    SliceOfSlice(data, b[offset..offset + n], b, p, offset, n);
    SliceIsRange(b[offset..offset + n], data, p + offset, n);
  }

  lemma BytesOfSection(data: seq<Byte>, p: nat, b: seq<Byte>, offset: nat, n: nat)
    requires BytesAt(data, p, |b|) == Some(b) && offset + n <= |b|
    ensures BytesAt(data, p + offset, n) == Some(b[offset..offset + n])
  {
    if n > 0 {
      SliceOfSection(data, p, b, offset, n);
    } else {
      assert b[offset..offset + n] == [];
    }
  }

  /** Part of a section is that slice of the whole, and nothing else is served. */
  lemma PartIsSlice(data: seq<Byte>, sh: seq<Word>, b: seq<Byte>, offset: nat, len: nat)
    requires |sh| == 10 && SectionOf(data, sh) == Some(b) && Val(sh[SH_OFFSET]) + |b| < 0x1_0000_0000_0000_0000
    ensures PartOf(data, sh, offset, len) ==
      var n := if len == 0 then |b| else len;
      if offset + n <= |b| then Some(b[offset..offset + n]) else None
  {
    var n := if len == 0 then |b| else len;
    if offset + n <= |b| {
      ModSmall(Val(sh[SH_OFFSET]) + offset, W64);
      BytesOfSection(data, Val(sh[SH_OFFSET]), b, offset, n);
    }
  }

  // ---- the symbol table

  /** A section header of type 2 whose name is `.symtab`. */
  predicate IsSymtab(t: Shtab, k: nat)
  {
    && k < |t.shdrs| && |t.shdrs[k]| == 10 && Val(t.shdrs[k][SH_TYPE]) == 2
    && var p := Val(t.shdrs[k][SH_NAME]);
       p + 8 <= |t.strtab| && t.strtab[p..p + 8] == [0x2e, 0x73, 0x79, 0x6d, 0x74, 0x61, 0x62, 0]
  }

  /** The names of symbol tables among the first `n` headers do not start behind the string table. */
  predicate NamesInside(t: Shtab, n: nat)
    requires n <= |t.shdrs| && forall k :: 0 <= k < |t.shdrs| ==> |t.shdrs[k]| == 10
  {
    forall k :: 0 <= k < n && Val(t.shdrs[k][SH_TYPE]) == 2 ==> Val(t.shdrs[k][SH_NAME]) <= |t.strtab|
  }

  lemma NameIsSymtab(t: Shtab, k: nat)
    requires k < |t.shdrs| && |t.shdrs[k]| == 10
    ensures IsSymtab(t, k) <==>
      Val(t.shdrs[k][SH_TYPE]) == SHT_SYMTAB && StrIs(t.strtab, Val(t.shdrs[k][SH_NAME]), SYMTAB_NAME)
  {
    assert SYMTAB_NAME + [0] == [0x2e, 0x73, 0x79, 0x6d, 0x74, 0x61, 0x62, 0];
  }

  /** The search finds a header exactly if that is the only one of a symbol table called `.symtab`. */
  lemma {:induction false} FoundExactlyWhen(t: Shtab, n: nat)
    requires n <= |t.shdrs| && forall k :: 0 <= k < |t.shdrs| ==> |t.shdrs[k]| == 10
    ensures forall idx: nat :: FindSymtab(t, n) == Hit(idx) <==>
      idx < n && IsSymtab(t, idx) && NamesInside(t, n) && forall k :: 0 <= k < n && k != idx ==> !IsSymtab(t, k)
    ensures FindSymtab(t, n) == Nothing <==> NamesInside(t, n) && forall k :: 0 <= k < n ==> !IsSymtab(t, k)
  {
    if n > 0 {
      FoundExactlyWhen(t, n - 1);
      NameIsSymtab(t, n - 1);
    }
  }

  /** The sizes of a symbol table: whole symbols, at least one, and entries of the right size if it says. */
  predicate SymbolSizes(sh: seq<Word>, size: nat)
    requires |sh| == 10 && size > 0
  {
    Val(sh[SH_SIZE]) > 0 && Val(sh[SH_SIZE]) % size == 0 && (Val(sh[SH_ENTSIZE]) == 0 || Val(sh[SH_ENTSIZE]) == size)
  }

  lemma OnlyHit(t: Shtab, idx: nat)
    requires (forall k :: 0 <= k < |t.shdrs| ==> |t.shdrs[k]| == 10) && IsSymtab(t, idx)
    ensures FindSymtab(t, |t.shdrs|).Hit? <==>
      NamesInside(t, |t.shdrs|) && forall k :: 0 <= k < |t.shdrs| && k != idx ==> !IsSymtab(t, k)
    ensures FindSymtab(t, |t.shdrs|).Hit? ==> FindSymtab(t, |t.shdrs|) == Hit(idx)
  {
    FoundExactlyWhen(t, |t.shdrs|);
    if FindSymtab(t, |t.shdrs|).Hit? {
      var i := FindSymtab(t, |t.shdrs|).idx;
      assert FindSymtab(t, |t.shdrs|) == Hit(i);
    }
  }

  /** The headers of the symbol table are handed out exactly if it is the only one and its sizes are right. */
  lemma SymHdrsExactlyWhen(t: Shtab, c64: bool, idx: nat)
    requires WellFormed(t, c64) && IsSymtab(t, idx)
    ensures SymHdrs(t, c64).Some? <==>
      && NamesInside(t, |t.shdrs|) && (forall k :: 0 <= k < |t.shdrs| && k != idx ==> !IsSymtab(t, k))
      && if c64 then SymbolSizes(t.shdrs[idx], 24) else SymbolSizes(t.shdrs[idx], 16)
  {
    OnlyHit(t, idx);
  }

  /** The symbols are read exactly if they and the section of their names lie in the file. */
  lemma SymtabExactlyWhen(data: seq<Byte>, c64: bool, lsb: bool, symsh: seq<Word>, strsh: seq<Word>)
    requires |symsh| == |strsh| == 10 && SymshOk(symsh, c64)
    ensures SymtabAt(data, c64, lsb, symsh, strsh).Some? <==>
      SectionInFile(data, symsh) && SectionInFile(data, strsh)
  {
    SymSizes(c64);
    WholeTable(Val(symsh[SH_SIZE]), SymCount(Val(symsh[SH_SIZE]), c64), c64);
    RecordsExactlyWhen(data, Val(symsh[SH_OFFSET]), SymCount(Val(symsh[SH_SIZE]), c64), SymWs(c64), lsb);
  }

  /** The fields of a symbol at `p`: name, value, size, info, other, section. */
  predicate SymIs(data: seq<Byte>, p: nat, f: seq<Word>)
  {
    && |f| == 6 && |data| > 5 && FieldAt(data, f[0], p, 4)
    && if data[4] == 2 then
         && FieldAt(data, f[4], p + 8, 8) && FieldAt(data, f[5], p + 16, 8)
         && FieldAt(data, f[1], p + 4, 1) && FieldAt(data, f[2], p + 5, 1) && FieldAt(data, f[3], p + 6, 2)
       else
         && FieldAt(data, f[1], p + 4, 4) && FieldAt(data, f[2], p + 8, 4)
         && FieldAt(data, f[3], p + 12, 1) && FieldAt(data, f[4], p + 13, 1) && FieldAt(data, f[5], p + 14, 2)
  }

  lemma FieldsOfSym(data: seq<Byte>, p: nat)
    requires |data| > 5 && RecordAt(data, p, SymWs(data[4] == 2), data[5] == 1).Some?
    ensures SymIs(data, p, RecordAt(data, p, SymWs(data[4] == 2), data[5] == 1).value)
  {
    var c64 := data[4] == 2;
    var ws := SymWs(c64);
    SymOffsets(c64);
    SymSizes(c64);
    RecordField(data, p, ws, 0);
    RecordField(data, p, ws, 1);
    RecordField(data, p, ws, 2);
    RecordField(data, p, ws, 3);
    RecordField(data, p, ws, 4);
    RecordField(data, p, ws, 5);
  }

  /** The place of symbol `k` of a table. */
  function SymPlace(data: seq<Byte>, off: nat, k: nat): nat
    requires |data| > 5
  {
    if data[4] == 2 then off + 24 * k else off + 16 * k
  }

  lemma SymtabParts(data: seq<Byte>, c64: bool, lsb: bool, y: Symtab)
    requires |y.symsh| == |y.strsh| == 10 && SymtabAt(data, c64, lsb, y.symsh, y.strsh) == Some(y)
    ensures Records(data, Val(y.symsh[SH_OFFSET]), |y.syms|, SymWs(c64), lsb) == Some(y.syms)
    ensures |y.syms| == SymCount(Val(y.symsh[SH_SIZE]), c64) && SectionOf(data, y.strsh) == Some(y.strtab)
  {
  }

  lemma SymRecord(data: seq<Byte>, off: nat, n: nat, k: nat)
    requires |data| > 5 && k < n && Records(data, off, n, SymWs(data[4] == 2), data[5] == 1).Some?
    ensures SymIs(data, SymPlace(data, off, k), Records(data, off, n, SymWs(data[4] == 2), data[5] == 1).value[k])
  {
    RecordOfTable(data, off, n, SymWs(data[4] == 2), data[5] == 1, k);
    PosOfSym(off, k, data[4] == 2);
    FieldsOfSym(data, Pos(off, k, SymWs(data[4] == 2)));
  }

  lemma SymInBytes(data: seq<Byte>, y: Symtab, k: nat)
    requires |data| > 5 && |y.symsh| == |y.strsh| == 10 && k < |y.syms|
    requires SymtabAt(data, data[4] == 2, data[5] == 1, y.symsh, y.strsh) == Some(y)
    ensures |y.syms| == (if data[4] == 2 then Val(y.symsh[SH_SIZE]) / 24 else Val(y.symsh[SH_SIZE]) / 16)
    ensures SymIs(data, SymPlace(data, Val(y.symsh[SH_OFFSET]), k), y.syms[k]) && SectionIs(data, y.strsh, y.strtab)
  {
    SymtabParts(data, data[4] == 2, data[5] == 1, y);
    SymRecord(data, Val(y.symsh[SH_OFFSET]), |y.syms|, k);
    SectionInBytes(data, y.strsh);
  }

  lemma SymHdrsAre(t: Shtab, c64: bool)
    requires WellFormed(t, c64) && SymHdrs(t, c64).Some?
    ensures var (symsh, strsh) := SymHdrs(t, c64).value;
      && |symsh| == 10 && Val(symsh[SH_LINK]) < |t.shdrs| && strsh == t.shdrs[Val(symsh[SH_LINK])]
      && exists idx: nat :: IsSymtab(t, idx) && symsh == t.shdrs[idx]
  {
    FoundExactlyWhen(t, |t.shdrs|);
    HitIsSymtab(t, |t.shdrs|);
    var idx := FindSymtab(t, |t.shdrs|).idx;
    assert IsSymtab(t, idx);
  }

  lemma ParsedFromBytes(data: seq<Byte>)
    requires Acceptable(data) && Parsed(data).Some?
    ensures var Input(e, t, y) := Parsed(data).value;
      && |data| > 5 && EhdrOf(data) == Some(e) && ShtabOf(data, e) == Some(t) && WellFormed(t, data[4] == 2)
      && SymHdrs(t, data[4] == 2) == Some((y.symsh, y.strsh))
      && SymtabAt(data, data[4] == 2, data[5] == 1, y.symsh, y.strsh) == Some(y)
  {
  }

  /** The symbols lie one behind the other where their header says, as many as its size holds, and their
      names are the section that it links to. */
  lemma SymbolsInBytes(data: seq<Byte>, k: nat)
    requires Acceptable(data) && Parsed(data).Some? && k < |Parsed(data).value.y.syms|
    ensures var Input(e, t, y) := Parsed(data).value;
      && |data| > 5 && |y.symsh| == 10
      && |y.syms| == (if data[4] == 2 then Val(y.symsh[SH_SIZE]) / 24 else Val(y.symsh[SH_SIZE]) / 16)
      && SymIs(data, SymPlace(data, Val(y.symsh[SH_OFFSET]), k), y.syms[k]) && SectionIs(data, y.strsh, y.strtab)
      && Val(y.symsh[SH_LINK]) < |t.shdrs| && y.strsh == t.shdrs[Val(y.symsh[SH_LINK])]
      && exists idx: nat :: IsSymtab(t, idx) && y.symsh == t.shdrs[idx]
  {
    ParsedFromBytes(data);
    var Input(e, t, y) := Parsed(data).value;
    SymHdrsAre(t, data[4] == 2);
    SymInBytes(data, y, k);
  }

  // ---- the copy

  /** The symbol at `q` of one file is the one at `p` of another, but for its section: an index of one of
      `n` sections becomes 0xfff1 (absolute). */
  predicate SameButSection(data: seq<Byte>, p: nat, out: seq<Byte>, q: nat, n: nat)
    requires |data| > 5 && |out| > 5 && data[4] == out[4]
    requires p + (if data[4] == 2 then 24 else 16) <= |data| && q + (if data[4] == 2 then 24 else 16) <= |out|
  {
    && NumberAt(out, q, 4) == NumberAt(data, p, 4)
    && if data[4] == 2 then
         && NumberAt(out, q + 8, 8) == NumberAt(data, p + 8, 8) && NumberAt(out, q + 16, 8) == NumberAt(data, p + 16, 8)
         && NumberAt(out, q + 4, 1) == NumberAt(data, p + 4, 1) && NumberAt(out, q + 5, 1) == NumberAt(data, p + 5, 1)
         && NumberAt(out, q + 6, 2) == Absolute(NumberAt(data, p + 6, 2), n)
       else
         && NumberAt(out, q + 4, 4) == NumberAt(data, p + 4, 4) && NumberAt(out, q + 8, 4) == NumberAt(data, p + 8, 4)
         && NumberAt(out, q + 12, 1) == NumberAt(data, p + 12, 1)
         && NumberAt(out, q + 13, 1) == NumberAt(data, p + 13, 1)
         && NumberAt(out, q + 14, 2) == Absolute(NumberAt(data, p + 14, 2), n)
  }

  function Absolute(shndx: nat, n: nat): nat
  {
    if 0 < shndx < n then 0xfff1 else shndx
  }

  lemma CopiedSymbol(data: seq<Byte>, p: nat, f: seq<Word>, out: seq<Byte>, q: nat, g: seq<Word>, n: nat)
    requires SymIs(data, p, f) && SymIs(out, q, g) && data[4] == out[4]
    requires g == if 0 < Val(f[StShndx(data[4] == 2)]) < n then f[StShndx(data[4] == 2) := WordOf(SHN_ABS, 2)] else f
    ensures p + (if data[4] == 2 then 24 else 16) <= |data| && q + (if data[4] == 2 then 24 else 16) <= |out|
    ensures SameButSection(data, p, out, q, n)
  {
    Limits();
    ValOfWord(SHN_ABS, 2);
  }

  /** The copy is a file of the same class, byte order and machine. */
  lemma CopyIsForSameMachine(data: seq<Byte>)
    requires Acceptable(data) && Parsed(data).Some?
    ensures var Input(e, t, y) := Parsed(data).value;
      && Sound(e, t, y)
      && var out := OutOf(e, t, y);
         && |data| >= 52 && |out| >= 52 && out[..16] == data[..16]
         && NumberAt(out, 18, 2) == NumberAt(data, 18, 2)
  {
    ParsedIsSound(data);
    ParsedFromBytes(data);
    var Input(e, t, y) := Parsed(data).value;
    var out := OutOf(e, t, y);
    OutIsWritten(e, t, y, SHSTRTAB);
    Places(e, t, y, SHSTRTAB, out);
    EhdrBack(e, out);
    AcceptedExactlyWhen(data);
    AcceptedExactlyWhen(out);
    HeaderInBytes(data);
    HeaderInBytes(out);
  }

  /** Symbol `k` of the copy is symbol `k` of the input, made absolute, and the copy has the same names. */
  lemma CopyInBytes(data: seq<Byte>, k: nat)
    requires Acceptable(data) && Parsed(data).Some? && k < |Parsed(data).value.y.syms|
    requires var Input(e, t, y) := Parsed(data).value;
      Val(t.shdrs[0][SH_TYPE]) != SHT_SYMTAB && OffsetsFit(y.symsh, Is64(e.ident))
    ensures var Input(e, t, y) := Parsed(data).value;
      && Sound(e, t, y) && Acceptable(OutOf(e, t, y)) && Parsed(OutOf(e, t, y)).Some?
      && var out, back := OutOf(e, t, y), Parsed(OutOf(e, t, y)).value.y;
         && |data| >= 16 && |out| >= 16 && out[..16] == data[..16] && out[4] == data[4]
         && |back.syms| == |y.syms| && back.strtab == y.strtab
         && |y.symsh| == |back.symsh| == 10
         && var p, q := SymPlace(data, Val(y.symsh[SH_OFFSET]), k), SymPlace(out, Val(back.symsh[SH_OFFSET]), k);
            && p + (if data[4] == 2 then 24 else 16) <= |data| && q + (if data[4] == 2 then 24 else 16) <= |out|
            && SameButSection(data, p, out, q, |t.shdrs|)
  {
    CopyReadsBack(data);
    var Input(e, t, y) := Parsed(data).value;
    var out := OutOf(e, t, y);
    var back := Parsed(out).value;
    SymbolsInBytes(data, k);
    SymbolsInBytes(out, k);
    SameClass(data);
    SameClass(out);
    assert out[4] == out[..16][4] && data[4] == data[..16][4];
    CopiedSymbol(data, SymPlace(data, Val(y.symsh[SH_OFFSET]), k), y.syms[k],
                 out, SymPlace(out, Val(back.y.symsh[SH_OFFSET]), k), back.y.syms[k], |t.shdrs|);
  }

  lemma SameClass(data: seq<Byte>)
    requires Acceptable(data) && Parsed(data).Some?
    ensures |data| >= 16 && Parsed(data).value.e.ident == data[..16]
    ensures Is64(Parsed(data).value.e.ident) <==> data[4] == 2
  {
    ParsedFromBytes(data);
    HeaderInBytes(data);
  }
}
