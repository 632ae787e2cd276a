/** PowerPC relocation: a value is computed in 32-bit arithmetic, checked, and patched into the bits
    of an instruction or into data. */
module PpcReloc {
  import opened Arith
  import opened ElfCodec
  import opened RelocMemory

  datatype Status = Ok | Undefined | NotSupported | OutOfRange | Overflow | Other

  const R_PPC_NONE := 0
  const R_PPC_ADDR32 := 1
  const R_PPC_ADDR24 := 2
  const R_PPC_ADDR16_LO := 4
  const R_PPC_ADDR16_HI := 5
  const R_PPC_ADDR16_HA := 6
  const R_PPC_REL24 := 10
  const R_PPC_REL32 := 26

  predicate Half(ty: nat) { ty == R_PPC_ADDR16_LO || ty == R_PPC_ADDR16_HI || ty == R_PPC_ADDR16_HA }

  predicate Branch(ty: nat) { ty == R_PPC_ADDR24 || ty == R_PPC_REL24 }

  predicate Relative(ty: nat) { ty == R_PPC_REL24 || ty == R_PPC_REL32 }

  predicate Supported(ty: nat) { Half(ty) || Branch(ty) || ty == R_PPC_ADDR32 || ty == R_PPC_REL32 }

  function SizeOf(ty: nat): nat { if Half(ty) then 2 else 4 }

  function AlignOf(ty: nat): nat { if Half(ty) then 2 else if ty == R_PPC_ADDR32 then 1 else 4 }

  /** A relocation as the loader meets it: the type, whether the symbol is undefined, its value, the
      addend, the address and size of the section, and the place in the section. */
  datatype Reloc = Reloc(ty: nat, und: bool, sym: int, addend: int, vma: nat, size: nat, offset: nat)

  /** The address of the patched word. */
  function Pc(r: Reloc): nat { (r.vma + r.offset) % W32 }

  /** The value to be inserted. */
  function Value(r: Reloc): int
  {
    if Relative(r.ty) then Signed32(Signed32(r.sym + r.addend) - Pc(r)) else Signed32(r.sym + r.addend)
  }

  /** The largest magnitude a branch may have: one bit more for the absolute one. */
  function Reach(ty: nat): int { if ty == R_PPC_REL24 then 0x200_0000 else 0x400_0000 }

  function StatusOf(r: Reloc): Status
  {
    if r.ty == R_PPC_NONE then Ok
    else if r.und then Undefined
    else if !Supported(r.ty) then NotSupported
    else if (r.offset + SizeOf(r.ty)) % W32 > r.size then OutOfRange
    else if Pc(r) % AlignOf(r.ty) != 0 then Other
    else if Branch(r.ty) && !(-Reach(r.ty) <= Value(r) < Reach(r.ty)) then Overflow
    else if Branch(r.ty) && Value(r) % 4 != 0 then Other
    else Ok
  }

  /** The 24 bits of a branch target, in place: `v & 0x03fffffc`. */
  function Field24(v: int): (f: nat)
    ensures f < 0x400_0000 && f % 4 == 0
  {
    v % 0x400_0000 - v % 4
  }

  /** The bits that are put in place of the old ones. */
  function Merged(ty: nat, old32: nat, v: int): nat
    requires old32 < W32
  {
    if Branch(ty) then old32 - Field24(old32) + Field24(v)
    else if ty == R_PPC_ADDR16_HA then (v + (if v % 0x1_0000 >= 0x8000 then 0x1_0000 else 0)) / 0x1_0000 % 0x1_0000
    else if ty == R_PPC_ADDR16_HI then v / 0x1_0000 % 0x1_0000
    else if ty == R_PPC_ADDR16_LO then v % 0x1_0000
    else v % W32
  }

  /** The masking and shifting at the end of the relocation, and the conversion to what is stored. */
  method Combine(ty: nat, oval: nat, val0: int) returns (bits: nat)
    requires oval < W32 && Supported(ty)
    ensures bits == Merged(ty, oval, val0)
  {
    var val := val0;
    if Branch(ty) {
      BranchKeepsOpcode(ty, oval, val0);
      ModSmall(Merged(ty, oval, val0), W32);
      val := oval - Field24(oval) + Field24(val);
    }
    if ty == R_PPC_ADDR16_HA && val % 0x1_0000 >= 0x8000 {
      val := val + 0x1_0000;
    }
    if ty == R_PPC_ADDR16_HA || ty == R_PPC_ADDR16_HI {
      val := val / 0x1_0000;
    }
    bits := if SizeOf(ty) == 2 then val % 0x1_0000 else val % W32;
  }

  /** `pmbfd_perform_relocation` for PowerPC. */
  method PerformRelocation(mem: array<Byte>, r: Reloc) returns (status: Status)
    requires r.size <= mem.Length
    requires !r.und && Supported(r.ty) && (r.offset + SizeOf(r.ty)) % W32 <= r.size ==> r.offset + SizeOf(r.ty) < W32
    modifies mem
    ensures status == StatusOf(r)
    ensures status != Ok || r.ty == R_PPC_NONE ==> mem[..] == old(mem[..])
    ensures status == Ok && r.ty != R_PPC_NONE ==>
      && r.offset + SizeOf(r.ty) <= mem.Length
      && var was := WordAt(old(mem[..]), r.offset, SizeOf(r.ty));
         was < W32 && mem[..] == Patched(old(mem[..]), r.offset, SizeOf(r.ty), Merged(r.ty, was, Value(r)))
  {
    if r.ty == R_PPC_NONE {
      return Ok;
    }
    if r.und {
      return Undefined;
    }
    var pc := (r.vma + r.offset) % W32;
    var val := Signed32(r.sym + r.addend);
    var lim, branch := 0, false;
    if !Supported(r.ty) {
      return NotSupported;
    }
    var sz, algn := SizeOf(r.ty), AlignOf(r.ty);
    if Branch(r.ty) {
      lim := if r.ty == R_PPC_REL24 then -0x200_0000 else -0x400_0000;
    }
    if (r.offset + sz) % W32 > r.size {
      return OutOfRange;
    }
    if pc % algn != 0 {
      return Other;
    }
    if Relative(r.ty) {
      val := Signed32(val - pc);
    }
    if lim != 0 && (val < lim || val > -lim - 1) {
      return Overflow;
    }
    if Branch(r.ty) && val % 4 != 0 {
      return Other;
    }
    ModSmall(r.offset + sz, W32);
    WordBelow(mem[..], r.offset, sz);
    Limits();
    var oval := WordAt(mem[..], r.offset, sz);
    var bits := Combine(r.ty, oval, val);
    Store(mem, r.offset, sz, bits);
    return Ok;
  }

  // ---- what the patched bits mean

  /** The pair of halves that code adds up: the high part is adjusted because the low part is
      sign-extended when it is added. */
  lemma HighAdjusted(v: int)
    requires -0x8000_0000 <= v < 0x8000_0000
    ensures (0x1_0000 * Merged(R_PPC_ADDR16_HA, 0, v) + SignedField(Merged(R_PPC_ADDR16_LO, 0, v), 0x8000) - v)
            % W32 == 0
    ensures (0x1_0000 * Merged(R_PPC_ADDR16_HI, 0, v) + Merged(R_PPC_ADDR16_LO, 0, v) - v) % W32 == 0
  {
    var lo := v % 0x1_0000;
    var hi := v / 0x1_0000;
    assert v == 0x1_0000 * hi + lo;
    var adj := hi + if lo >= 0x8000 then 1 else 0;
    assert (v + (if lo >= 0x8000 then 0x1_0000 else 0)) / 0x1_0000 == adj;
    HalfWraps(adj);
    HalfWraps(hi);
  }

  lemma HalfWraps(h: int)
    ensures (0x1_0000 * (h % 0x1_0000) - 0x1_0000 * h) % W32 == 0
  {
    var q := h / 0x1_0000;
    assert h == 0x1_0000 * q + h % 0x1_0000;
    assert 0x1_0000 * (h % 0x1_0000) - 0x1_0000 * h == (-q) * W32 + 0;
    ModUnique(0x1_0000 * (h % 0x1_0000) - 0x1_0000 * h, W32, -q, 0);
  }

  /** A branch keeps the opcode and the two lowest bits of the instruction, whatever they were. */
  lemma BranchKeepsOpcode(ty: nat, was: nat, v: int)
    requires Branch(ty) && was < W32
    ensures var now := Merged(ty, was, v);
      now < W32 && now - Field24(now) == was - Field24(was) && Field24(now) == Field24(v)
      && now / 0x400_0000 == was / 0x400_0000 && now % 4 == was % 4
  {
    var top, low := was / 0x400_0000, was % 4;
    assert was == 0x400_0000 * top + was % 0x400_0000;
    var now := Merged(ty, was, v);
    FieldIn(was);
    assert now == 0x400_0000 * top + (Field24(v) + low);
    assert now % 0x400_0000 == Field24(v) + low && now / 0x400_0000 == top;
    assert now % 4 == low;
  }

  lemma FieldIn(was: nat)
    ensures was - Field24(was) == 0x400_0000 * (was / 0x400_0000) + was % 4
  {
  }

  /** A relative branch that is accepted reaches its target exactly: address plus decoded field. */
  lemma RelativeBranchReaches(r: Reloc, was: nat)
    requires r.ty == R_PPC_REL24 && StatusOf(r) == Ok && was < W32
    ensures SignedField(Field24(Merged(r.ty, was, Value(r))), 0x200_0000) == Value(r)
    ensures (Pc(r) + SignedField(Field24(Merged(r.ty, was, Value(r))), 0x200_0000)) % W32 == (r.sym + r.addend) % W32
  {
    BranchKeepsOpcode(r.ty, was, Value(r));
    DecodesExactly(Value(r));
    PcPlusValue(r);
  }

  lemma DecodesExactly(v: int)
    requires -0x200_0000 <= v < 0x200_0000 && v % 4 == 0
    ensures SignedField(Field24(v), 0x200_0000) == v
  {
    assert v % 0x400_0000 == if v >= 0 then v else v + 0x400_0000;
  }

  lemma PcPlusValue(r: Reloc)
    requires Relative(r.ty)
    ensures (Pc(r) + Value(r)) % W32 == (r.sym + r.addend) % W32
  {
    var s := Signed32(r.sym + r.addend);
    SameWord(r.sym + r.addend);
    SameWord(s - Pc(r));
    ModSum(s - Pc(r), Pc(r), W32);
    ModSum(Value(r), Pc(r), W32);
  }

  lemma SignedCongruent(v: int)
    ensures exists k: int :: Signed32(v) == v + k * W32
  {
    var q := v / W32;
    assert v == q * W32 + v % W32;
    assert Signed32(v) == v + (-q) * W32 || Signed32(v) == v + (-q - 1) * W32;
  }

  lemma Shift(v: int, k: int)
    ensures (v + k * W32) % W32 == v % W32
  {
    assert v + k * W32 == (v / W32 + k) * W32 + v % W32;
    ModUnique(v + k * W32, W32, v / W32 + k, v % W32);
  }

  /** The absolute branch is accepted for one bit more than its field has: among the accepted
      values, the decoded field is the value exactly if it fits the signed field. */
  lemma AbsoluteBranchReaches(r: Reloc, was: nat)
    requires r.ty == R_PPC_ADDR24 && StatusOf(r) == Ok && was < W32
    ensures SignedField(Field24(Merged(r.ty, was, Value(r))), 0x200_0000) == Value(r)
       <==> -0x200_0000 <= Value(r) < 0x200_0000
  {
    BranchKeepsOpcode(r.ty, was, Value(r));
  }

  /** An accepted absolute branch to 32M goes to the other end of the range. */
  lemma AbsoluteBranchMisses()
    ensures var r := Reloc(R_PPC_ADDR24, false, 0x200_0000, 0, 0, 4, 0);
      && StatusOf(r) == Ok && Value(r) == 0x200_0000
      && SignedField(Field24(Merged(r.ty, 0, Value(r))), 0x200_0000) == -0x200_0000
  {
  }

  /** Data words: absolute ones hold the value, relative ones the distance to it. */
  lemma WordsHoldValue(r: Reloc, was: nat)
    requires was < W32
    ensures r.ty == R_PPC_ADDR32 ==> Merged(r.ty, was, Value(r)) == (r.sym + r.addend) % W32
    ensures r.ty == R_PPC_REL32 ==> (Pc(r) + Merged(r.ty, was, Value(r))) % W32 == (r.sym + r.addend) % W32
  {
    SameWord(r.sym + r.addend);
    if r.ty == R_PPC_REL32 {
      PcPlusValue(r);
      ModSum(Value(r), Pc(r), W32);
    }
  }

  lemma SameWord(v: int)
    ensures Signed32(v) % W32 == v % W32
  {
    SignedCongruent(v);
    var k: int :| Signed32(v) == v + k * W32;
    Shift(v, k);
  }

  /** The 16-bit types hold the low half of the value, the high half, and the high half rounded for a signed
      low half. */
  lemma HalvesHoldValue(r: Reloc, was: nat)
    requires was < W32
    ensures r.ty == 4 ==> Merged(r.ty, was, Value(r)) == (r.sym + r.addend) % 0x1_0000
    ensures r.ty == 5 ==> Merged(r.ty, was, Value(r)) == (r.sym + r.addend) / 0x1_0000 % 0x1_0000
    ensures r.ty == 6 ==> Merged(r.ty, was, Value(r)) == (r.sym + r.addend + 0x8000) / 0x1_0000 % 0x1_0000
  {
    var v := r.sym + r.addend;
    SignedCongruent(v);
    var k: int :| Signed32(v) == v + k * W32;
    HalvesOf(v, k);
  }

  lemma SplitHalf(h: int, lo: int)
    requires 0 <= lo < 0x1_0000
    ensures (0x1_0000 * h + lo) / 0x1_0000 == h && (0x1_0000 * h + lo) % 0x1_0000 == lo
  {
  }

  /** The halves do not change with a multiple of 2^32. */
  lemma HalvesOf(v: int, k: int)
    ensures (v + k * W32) % 0x1_0000 == v % 0x1_0000
    ensures (v + k * W32) / 0x1_0000 % 0x1_0000 == v / 0x1_0000 % 0x1_0000
    ensures (v + k * W32 + (if v % 0x1_0000 >= 0x8000 then 0x1_0000 else 0)) / 0x1_0000 % 0x1_0000
         == (v + 0x8000) / 0x1_0000 % 0x1_0000
  {
    var hi, lo := v / 0x1_0000, v % 0x1_0000;
    var up := hi + 0x1_0000 * k;
    assert v == 0x1_0000 * hi + lo && v + k * W32 == 0x1_0000 * up + lo;
    SplitHalf(up, lo);
    SameHalf(hi, k);
    if lo >= 0x8000 {
      SplitHalf(hi + 1, lo - 0x8000);
      SplitHalf(up + 1, lo);
      SameHalf(hi + 1, k);
    } else {
      SplitHalf(hi, lo + 0x8000);
    }
  }

  lemma SameHalf(h: int, k: int)
    ensures (h + 0x1_0000 * k) % 0x1_0000 == h % 0x1_0000
  {
    ModUnique(h + 0x1_0000 * k, 0x1_0000, h / 0x1_0000 + k, h % 0x1_0000);
  }

  predicate Known(ty: nat) { ty in [1, 2, 4, 5, 6, 10, 26] }

  /** How many bytes are patched: 2 for the 16-bit types. */
  function Bytes(ty: nat): nat { if 4 <= ty <= 6 then 2 else 4 }

  predicate Fitting(ty: nat, at: nat)
  {
    if ty == 1 then true else if 4 <= ty <= 6 then at % 2 == 0 else at % 4 == 0
  }

  /** The value modulo 2^32, as a signed number, or the distance to it for REL24 and REL32. */
  predicate IsValue(r: Reloc, v: int)
  {
    && -0x8000_0000 <= v < 0x8000_0000
    && (v - (r.sym + r.addend - if r.ty == 10 || r.ty == 26 then r.vma + r.offset else 0)) % 0x1_0000_0000 == 0
  }

  lemma CongruentTo(v: int, w: int)
    requires v % W32 == w % W32
    ensures (v - w) % W32 == 0
  {
    assert v - w == (v / W32 - w / W32) * W32 + 0;
    ModUnique(v - w, W32, v / W32 - w / W32, 0);
  }

  lemma ValueIsValue(r: Reloc)
    ensures IsValue(r, Value(r))
  {
    var a, t := r.vma + r.offset, r.sym + r.addend;
    SameWord(t);
    if Relative(r.ty) {
      SameWord(Signed32(t) - Pc(r));
      ModSum(Signed32(t), 0 - Pc(r), W32);
      ModSum(t, 0 - Pc(r), W32);
      PcTaken(t, a);
      CongruentTo(Value(r), t - a);
    } else {
      CongruentTo(Value(r), t);
    }
  }

  lemma PcTaken(t: int, a: nat)
    ensures (t - a % W32) % W32 == (t - a) % W32
  {
    assert t - a % W32 == (t - a) + (a / W32) * W32;
    Shift(t - a, a / W32);
  }

  lemma OnlyOneValue(r: Reloc, v: int, w: int)
    requires IsValue(r, v) && IsValue(r, w)
    ensures v == w
  {
    var x := r.sym + r.addend - if r.ty == 10 || r.ty == 26 then r.vma + r.offset else 0;
    assert v - w == ((v - x) / W32 - (w - x) / W32) * W32;
  }

  /** A relocation is carried out exactly if its symbol is defined, its type is known, it lies in the section
      at a fitting place, and a branch is to a word in reach: 32M either way, and 64M for ADDR24. */
  lemma AcceptedExactlyWhen(r: Reloc, v: int)
    requires r.ty != 0 && IsValue(r, v)
    ensures Value(r) == v
    ensures StatusOf(r) == Ok <==>
      && !r.und && Known(r.ty) && (r.offset + Bytes(r.ty)) % 0x1_0000_0000 <= r.size
      && Fitting(r.ty, (r.vma + r.offset) % 0x1_0000_0000)
      && (r.ty == 10 ==> -0x200_0000 <= v < 0x200_0000 && v % 4 == 0)
      && (r.ty == 2 ==> -0x400_0000 <= v < 0x400_0000 && v % 4 == 0)
  {
    ValueIsValue(r);
    OnlyOneValue(r, v, Value(r));
  }

  // ---- the text region

  const LIMIT_32M := 0x0200_0000

  predicate Aligned(a: nat) { a == 4 || a == 8 || a == 16 || a == 32 }

  function Up(u: nat, a: nat): nat
    requires a > 0
  {
    (u + a - 1) / a * a
  }

  function Down(x: nat, a: nat): nat
    requires a > 0
  {
    x / a * a
  }

  /** The length of a region made from `size` bytes at `u`, as unsigned arithmetic gives it. */
  function Length(u: nat, size: nat, a: nat): nat
    requires a > 0
  {
    Down((size - (Up(u, a) - u)) % W32, a)
  }

  lemma UpIsLeast(u: nat, a: nat)
    requires Aligned(a)
    ensures u <= Up(u, a) < u + a && Up(u, a) % a == 0
  {
    RoundDown(u + a - 1, a);
  }

  /** A region made from memory below 32M stays there exactly if the memory reaches its first aligned
      address; otherwise the length wraps around. */
  lemma RegionFits(u: nat, size: nat, a: nat)
    requires Aligned(a) && u + size <= LIMIT_32M
    ensures Up(u, a) + Length(u, size, a) <= LIMIT_32M <==> Up(u, a) - u <= size
    ensures Up(u, a) % a == 0 && Length(u, size, a) % a == 0
  {
    UpIsLeast(u, a);
    var room := (size - (Up(u, a) - u)) % W32;
    RoundDown(room, a);
    assert room == if Up(u, a) - u <= size then size - (Up(u, a) - u) else size - (Up(u, a) - u) + W32;
  }

  /** A region that fits misses less than one unit of the memory at either end. */
  lemma RegionIsMost(u: nat, size: nat, a: nat)
    requires Aligned(a) && Up(u, a) - u <= size < W32
    ensures Up(u, a) < u + a && Up(u, a) + Length(u, size, a) <= u + size < Up(u, a) + Length(u, size, a) + a
  {
    UpIsLeast(u, a);
    ModSmall(size - (Up(u, a) - u), W32);
    RoundDown(size - (Up(u, a) - u), a);
  }

  /** A region was made of `room` bytes below 32M. */
  predicate MadeOf(from: nat, room: nat, align: nat, start: nat, length: nat)
    requires align > 0
  {
    from + room <= LIMIT_32M && start == Up(from, align) && length == Length(from, room, align)
  }

  /** The check for 1000 bytes before the region is used rules the wrap-around out. */
  lemma BigRegionFits(from: nat, room: nat, align: nat, start: nat, length: nat)
    requires Aligned(align) && MadeOf(from, room, align, start, length)
    ensures start + length <= LIMIT_32M <==> start - from <= room
    ensures room > 1000 ==> start + length <= LIMIT_32M && start % align == 0 && length % align == 0
  {
    UpIsLeast(from, align);
    RegionFits(from, room, align);
  }

  /** Which memory a call uses, and the size it records: what the application provides, or else what the
      linker script provides; cut off at 32M, and given up when it starts there. */
  function Chosen(array0: nat, startSym: nat, endSym: nat, size: nat): (r: (nat, nat))
    requires startSym <= endSym
  {
    var given := if size != 0 then size else endSym - startSym;
    var unaligned := if size != 0 then array0 else if given != 0 then startSym else LIMIT_32M;
    if unaligned >= LIMIT_32M then (unaligned, 0)
    else if unaligned + given > LIMIT_32M then (unaligned, LIMIT_32M - unaligned)
    else (unaligned, given)
  }

  /** What a call may rely on about the size it records. */
  lemma ChosenSize(array0: nat, startSym: nat, endSym: nat, size: nat)
    requires startSym <= endSym < W32
    ensures var (u, r) := Chosen(array0, startSym, endSym, size);
      && r <= LIMIT_32M && (r > 0 ==> u + r <= LIMIT_32M)
      && (size > 0 ==> r <= size && (r > 0 <==> array0 < LIMIT_32M))
  {
  }

  /** The sizes that calls report once a region was made of `room` bytes never exceed those. */
  predicate Covered(array0: nat, startSym: nat, endSym: nat, size: nat, room: nat)
    requires startSym <= endSym
  {
    size <= room && if array0 < LIMIT_32M then size > 0 else Chosen(array0, startSym, endSym, 0).1 <= room
  }

  lemma StaysCovered(array0: nat, startSym: nat, endSym: nat, size: nat, room: nat)
    requires startSym <= endSym < W32
    requires var r := Chosen(array0, startSym, endSym, size).1;
      Covered(array0, startSym, endSym, size, room) || (r > 0 && room == r)
    ensures Covered(array0, startSym, endSym, Chosen(array0, startSym, endSym, size).1, room)
  {
    ChosenSize(array0, startSym, endSym, size);
  }

  /** Without an array (its address is then null), memory from the linker script is used at its own address
      only once: a call that comes after a failed creation takes it to start at address 0. */
  lemma RetryStartsAtZero(startSym: nat, endSym: nat)
    requires startSym < endSym < W32 && startSym < LIMIT_32M
    ensures var (u, size) := Chosen(0, startSym, endSym, 0);
      u == startSym && size > 0 && Chosen(0, startSym, endSym, size) == (0, size)
  {
    var size := Chosen(0, startSym, endSym, 0).1;
    assert 0 < size <= LIMIT_32M;
  }

  /** The memory that is used is part of what is provided, all of it below 32M; with nothing there none. */
  lemma ChosenIsProvided(array0: nat, startSym: nat, endSym: nat, size: nat)
    requires startSym <= endSym < W32
    ensures var (u, r) := Chosen(array0, startSym, endSym, size);
      var (lo, hi) := if size != 0 then (array0, array0 + size) else (startSym, endSym);
      && (r > 0 ==> u == lo && u + r == if hi <= 0x200_0000 then hi else 0x200_0000)
      && (r == 0 <==> lo == hi || lo >= 0x200_0000)
  {
  }

  /** The memory for program text: an array of the application, or else what the linker script
      provides (the array is then usually undefined, that is null); and the region made from it. */
  class TextRegion {
    const array0: nat
    const startSym: nat
    const endSym: nat
    const align: nat
    var size: nat
    var made: bool
    var start: nat
    var length: nat
    ghost var from: nat
    ghost var room: nat

    /** Memory that is provided lies in the address space. */
    constructor (array0: nat, size: nat, startSym: nat, endSym: nat, align: nat)
      requires Aligned(align) && array0 + size < W32 && startSym <= endSym < W32
      ensures Valid() && !made
      ensures this.array0 == array0 && this.startSym == startSym && this.endSym == endSym && this.size == size
    {
      this.array0, this.startSym, this.endSym, this.align := array0, startSym, endSym, align;
      this.size, made, start, length := size, false, 0, 0;
      from, room := 0, 0;
    }

    /** The region was made of `room` bytes at `from`, and no later call reports more than that. */
    ghost predicate Valid()
      reads this
    {
      && Aligned(align) && startSym <= endSym < W32
      && (array0 >= LIMIT_32M || array0 + size < W32)
      && (made ==> MadeOf(from, room, align, start, length) && Covered(array0, startSym, endSym, size, room))
    }

    /** Where the memory comes from. */
    method ChooseMemory() returns (unaligned: nat)
      requires startSym <= endSym < W32 && (array0 >= LIMIT_32M || array0 + size < W32)
      modifies `size
      ensures (unaligned, size) == Chosen(array0, startSym, endSym, old(size))
    {
      unaligned := LIMIT_32M;
      if size != 0 {
        unaligned := array0;
      } else {
        size := endSym - startSym;
        if size != 0 {
          unaligned := startSym;
        }
      }
      if unaligned >= LIMIT_32M {
        size := 0;
      } else if (unaligned + size) % W32 > LIMIT_32M {
        size := LIMIT_32M - unaligned;
      }
    }

    /** The lazy part of `cexpSegsInit`; `created` is the outcome of making the region.  Text is put into
        the region only if more than 1000 bytes are reported, and then the region lies below 32M. */
    method SegsInit(created: bool) returns (ok: bool)
      requires Valid()
      modifies this
      ensures Valid() && size == Chosen(array0, startSym, endSym, old(size)).1
      ensures old(made) ==> ok && made && start == old(start) && length == old(length)
      ensures !old(made) ==> made == (created && size > 0) && ok == (created || size == 0)
      ensures !old(made) && made ==>
        var u := Chosen(array0, startSym, endSym, old(size)).0;
        start == Up(u, align) && (start + length <= LIMIT_32M <==> start - u <= size)
      ensures made && size > 1000 ==>
        start + length <= LIMIT_32M && start % align == 0 && length % align == 0
    {
      var unaligned := ChooseMemory();
      ChosenSize(array0, startSym, endSym, old(size));
      ok := true;
      if !made && size != 0 {
        ok := MakeRegion(unaligned, created);
      }
      if made {
        StaysCovered(array0, startSym, endSym, old(size), room);
        BigRegionFits(from, room, align, start, length);
      }
    }

    /** The region manager wants an aligned start and length. */
    method MakeRegion(unaligned: nat, created: bool) returns (ok: bool)
      requires Aligned(align) && unaligned + size <= LIMIT_32M && !made
      modifies `start, `length, `made, `from, `room
      ensures ok == created == made && from == unaligned && room == size
      ensures MadeOf(unaligned, size, align, start, length)
    {
      UpIsLeast(unaligned, align);
      start := (unaligned + align - 1) / align * align;
      length := (size - (start - unaligned)) % W32 / align * align;
      from, room := unaligned, size;
      made := created;
      ok := created;
    }
  }

  /** Branches between any two words of the region never overflow. */
  lemma RegionBranchesFit(r: Reloc, start: nat, length: nat)
    requires start + length <= LIMIT_32M && r.ty == R_PPC_REL24
    requires start <= Pc(r) < start + length && start <= r.sym + r.addend < start + length
    ensures StatusOf(r) != Overflow && Value(r) == r.sym + r.addend - Pc(r)
  {
    assert Value(r) == r.sym + r.addend - Pc(r) by {
      SignedSmall(r.sym + r.addend);
      SignedSmall(r.sym + r.addend - Pc(r));
    }
  }
}
