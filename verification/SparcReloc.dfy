/** SPARC relocation: a table says for every type how many bytes are patched, how wide the field at
    their low end is, how far the value is shifted, how it is checked, and what it is relative to. */
module SparcReloc {
  import opened Arith
  import opened ElfCodec
  import opened RelocMemory

  datatype Check = NoCheck | Bits | Sign

  datatype Desc = Desc(nbytes: nat, width: nat, shift: nat, check: Check, relative: bool, unaligned: bool)

  const UNSUPPORTED := Desc(0, 0, 0, NoCheck, false, false)

  /** `sparc_rels`; types without an entry have no bytes to patch. */
  function Table(ty: nat): Desc
  {
    match ty
    case 1 => Desc(1, 8, 0, Bits, false, false)      // R_SPARC_8
    case 2 => Desc(2, 16, 0, Bits, false, false)     // R_SPARC_16
    case 3 => Desc(4, 32, 0, Bits, false, false)     // R_SPARC_32
    case 4 => Desc(1, 8, 0, Sign, true, false)       // R_SPARC_DISP8
    case 5 => Desc(2, 16, 0, Sign, true, false)      // R_SPARC_DISP16
    case 6 => Desc(4, 32, 0, Sign, true, false)      // R_SPARC_DISP32
    case 7 => Desc(4, 30, 2, Sign, true, false)      // R_SPARC_WDISP30
    case 8 => Desc(4, 22, 2, Sign, true, false)      // R_SPARC_WDISP22
    case 9 => Desc(4, 22, 10, NoCheck, false, false) // R_SPARC_HI22
    case 10 => Desc(4, 22, 0, Bits, false, false)    // R_SPARC_22
    case 11 => Desc(4, 13, 0, Bits, false, false)    // R_SPARC_13
    case 12 => Desc(4, 10, 0, NoCheck, false, false) // R_SPARC_LO10
    case 16 => Desc(4, 10, 0, NoCheck, true, false)  // R_SPARC_PC10
    case 17 => Desc(4, 22, 10, Bits, true, false)    // R_SPARC_PC22
    case 23 => Desc(4, 32, 0, Bits, false, true)     // R_SPARC_UA32
    case 30 => Desc(4, 10, 0, Bits, false, false)    // R_SPARC_10
    case 31 => Desc(4, 11, 0, Bits, false, false)    // R_SPARC_11
    case 43 => Desc(4, 7, 0, Bits, false, false)     // R_SPARC_7
    case 44 => Desc(4, 5, 0, Bits, false, false)     // R_SPARC_5
    case 45 => Desc(4, 6, 0, Bits, false, false)     // R_SPARC_6
    case 55 => Desc(2, 16, 0, Bits, false, true)     // R_SPARC_UA16
    case _ => UNSUPPORTED
  }

  datatype Status = Ok | Undefined | NotSupported | Overflow | Other

  datatype Reloc = Reloc(ty: nat, und: bool, sym: nat, addend: int, vma: nat, offset: nat)

  function Pc(r: Reloc): nat { (r.vma + r.offset) % W32 }

  /** The displacement or address before the shift. */
  function Distance(r: Reloc): int
  {
    r.sym + r.addend - if Table(r.ty).relative then Pc(r) else 0
  }

  /** The value to be inserted: a shift to the right rounds down. */
  function Value(r: Reloc): int
  {
    Distance(r) / Pow2(Table(r.ty).shift)
  }

  predicate InRange(d: Desc, v: int)
  {
    match d.check
    case NoCheck => true
    case Bits => 0 - Pow2(d.width) <= v < Pow2(d.width)
    case Sign => d.width > 0 && 0 - Pow2(d.width - 1) <= v < Pow2(d.width - 1)
  }

  function StatusOf(r: Reloc): Status
  {
    var d := Table(r.ty);
    if r.ty == 0 then Ok
    else if d.nbytes == 0 then NotSupported
    else if r.und then Undefined
    else if !d.unaligned && Pc(r) % d.nbytes != 0 then Other
    else if !InRange(d, Value(r)) then Overflow
    else Ok
  }

  /** The word with the field replaced by the low bits of the value. */
  function Merged(u: nat, width: nat, v: int): nat
  {
    ModSmall(u, Pow2(width));
    u - u % Pow2(width) + v % Pow2(width)
  }

  /** Bits outside the field are preserved, the field holds the value modulo its size, and the word
      stays a word. */
  lemma FieldReplaced(u: nat, width: nat, v: int, limit: nat)
    requires u < limit && Divides(Pow2(width), limit)
    ensures Merged(u, width, v) / Pow2(width) == u / Pow2(width)
    ensures Merged(u, width, v) % Pow2(width) == v % Pow2(width)
    ensures Merged(u, width, v) < limit
  {
    var m, q := Pow2(width), u / Pow2(width);
    var r := Merged(u, width, v);
    DivMod(u, m);
    assert r == q * m + v % m;
    ModUnique(r, m, q, v % m);
    DivUnique(r, m, q, v % m);
    var k: int :| limit == k * m;
    if k <= q {
      if k < q {
        MultiplesApart(m, k, q);
      }
    } else {
      MultiplesApart(m, q, k);
    }
  }

  /** Every supported field fits the bytes that hold it. */
  lemma TableIsSound(ty: nat)
    requires Table(ty).nbytes != 0
    ensures var d := Table(ty); d.nbytes in {1, 2, 4} && 1 <= d.width <= 8 * d.nbytes
    ensures Divides(Pow2(Table(ty).width), Limit(Table(ty).nbytes))
  {
    var d := Table(ty);
    LimitIsPow2(d.nbytes);
    Pow2Divides(d.width, 8 * d.nbytes);
  }

  lemma {:induction false} LimitIsPow2(n: nat)
    ensures Limit(n) == Pow2(8 * n)
  {
    if n > 0 {
      LimitIsPow2(n - 1);
      EightMore(8 * (n - 1));
    }
  }

  /** The range checks against the mask of the field. */
  method CheckRange(d: Desc, val: int) returns (ok: bool)
    requires d.width >= 1
    ensures ok == InRange(d, val)
  {
    var msk := Pow2(d.width) - 1;
    match d.check {
      case NoCheck => ok := true;
      case Bits => ok := -msk - 1 <= val <= msk;
      case Sign => ok := -(msk / 2) - 1 <= val <= msk / 2;
    }
  }

  /** `pmbfd_perform_relocation` for SPARC.  The bound of the table is compared with its size in
      bytes, 224, so the code relies on not being given a type in between. */
  method PerformRelocation(mem: array<Byte>, r: Reloc) returns (status: Status)
    requires r.ty < 56 || r.ty >= 224
    requires r.offset + Table(r.ty).nbytes <= mem.Length
    modifies mem
    ensures status == StatusOf(r)
    ensures status != Ok || r.ty == 0 ==> mem[..] == old(mem[..])
    ensures status == Ok && r.ty != 0 ==>
      var n, was := Table(r.ty).nbytes, WordAt(old(mem[..]), r.offset, Table(r.ty).nbytes);
      mem[..] == Patched(old(mem[..]), r.offset, n, Merged(was, Table(r.ty).width, Value(r)))
  {
    if r.ty == 0 {
      return Ok;
    }
    var dsc := if r.ty >= 224 then UNSUPPORTED else Table(r.ty);
    assert dsc == Table(r.ty);
    if dsc.nbytes == 0 {
      return NotSupported;
    }
    if r.und {
      return Undefined;
    }
    var pc := (r.vma + r.offset) % W32;
    if !dsc.unaligned && pc % dsc.nbytes != 0 {
      return Other;
    }
    var val := r.sym + r.addend;
    if dsc.relative {
      val := val - pc;
    }
    assert val == Distance(r);
    val := val / Pow2(dsc.shift);
    assert val == Value(r);
    TableIsSound(r.ty);
    var ok := CheckRange(dsc, val);
    if !ok {
      return Overflow;
    }
    var oval := WordAt(mem[..], r.offset, dsc.nbytes);
    Store(mem, r.offset, dsc.nbytes, Merged(oval, dsc.width, val));
    return Ok;
  }

  // ---- what the patched bits mean

  /** The section after a successful relocation. */
  function After(r: Reloc, m: seq<Byte>): (m': seq<Byte>)
    requires r.offset + Table(r.ty).nbytes <= |m|
    ensures |m'| == |m|
  {
    var d := Table(r.ty);
    Patched(m, r.offset, d.nbytes, Merged(WordAt(m, r.offset, d.nbytes), d.width, Value(r)))
  }

  /** The field of the instruction or datum at the place. */
  function Field(r: Reloc, m: seq<Byte>): (f: nat)
    requires r.offset + Table(r.ty).nbytes <= |m|
  {
    WordAt(m, r.offset, Table(r.ty).nbytes) % Pow2(Table(r.ty).width)
  }

  predicate Relocatable(r: Reloc, m: seq<Byte>)
  {
    r.ty != 0 && StatusOf(r) == Ok && r.offset + Table(r.ty).nbytes <= |m|
  }

  /** For every type of the table: after a successful relocation the bits outside the field are what
      they were, and the field decodes to the shifted value, exactly if it is a signed one and
      modulo its size otherwise. */
  lemma FieldDecodes(r: Reloc, m: seq<Byte>)
    requires Relocatable(r, m)
    ensures var d, m' := Table(r.ty), After(r, m);
      && (forall i :: 0 <= i < |m| && !(r.offset <= i < r.offset + d.nbytes) ==> m'[i] == m[i])
      && WordAt(m', r.offset, d.nbytes) / Pow2(d.width) == WordAt(m, r.offset, d.nbytes) / Pow2(d.width)
      && Field(r, m') == Value(r) % Pow2(d.width)
      && (d.check == Sign ==> SignedField(Field(r, m'), Pow2(d.width - 1)) == Value(r))
  {
    TableIsSound(r.ty);
    DescDecodes(Table(r.ty), r.offset, Value(r), m);
  }

  lemma DescDecodes(d: Desc, at: nat, v: int, m: seq<Byte>)
    requires InRange(d, v) && d.width >= 1 && Divides(Pow2(d.width), Limit(d.nbytes)) && at + d.nbytes <= |m|
    ensures var was := WordAt(m, at, d.nbytes);
      var m' := Patched(m, at, d.nbytes, Merged(was, d.width, v));
      var now := WordAt(m', at, d.nbytes);
      && (forall i :: 0 <= i < |m| && !(at <= i < at + d.nbytes) ==> m'[i] == m[i])
      && now / Pow2(d.width) == was / Pow2(d.width)
      && now % Pow2(d.width) == v % Pow2(d.width)
      && (d.check == Sign ==> SignedField(now % Pow2(d.width), Pow2(d.width - 1)) == v)
  {
    var was := WordAt(m, at, d.nbytes);
    WordBelow(m, at, d.nbytes);
    FieldReplaced(was, d.width, v, Limit(d.nbytes));
    PatchedReads(m, at, d.nbytes, Merged(was, d.width, v));
    if d.check == Sign {
      SignedDecodes(v, Pow2(d.width - 1));
    }
  }

  lemma SignedDecodes(v: int, half: nat)
    requires half > 0 && 0 - half <= v < half
    ensures SignedField(v % (2 * half), half) == v
  {
    if v >= 0 {
      ModUnique(v, 2 * half, 0, v);
    } else {
      ModUnique(v, 2 * half, -1, v + 2 * half);
    }
  }

  /** A signed displacement that was accepted reaches its target exactly if the bits that are shifted out
      are zero: address plus decoded field, scaled. */
  lemma DisplacementReaches(r: Reloc, m: seq<Byte>)
    requires Relocatable(r, m) && Table(r.ty).relative && Table(r.ty).check == Sign
    ensures var d := Table(r.ty);
      Pc(r) + SignedField(Field(r, After(r, m)), Pow2(d.width - 1)) * Pow2(d.shift) == r.sym + r.addend
      <==> Distance(r) % Pow2(d.shift) == 0
  {
    FieldDecodes(r, m);
    ScaledBack(Distance(r), Pow2(Table(r.ty).shift));
  }

  lemma ScaledBack(d: int, q: nat)
    requires q > 0
    ensures (d / q) * q == d - d % q
  {
    assert d == (d / q) * q + d % q;
  }

  /** A word is its high 22 and its low 10 bits. */
  lemma SplitWord(v: int, h: nat, l: nat)
    requires h == v / 0x400 % 0x40_0000 && l == v % 0x400
    ensures h * 0x400 + l == v % W32
  {
    var q := v / 0x400;
    assert v == q * 0x400 + l;
    var k := q / 0x40_0000;
    assert q == k * 0x40_0000 + h;
    assert v == k * W32 + (h * 0x400 + l);
    ModUnique(v, W32, k, h * 0x400 + l);
  }

  /** What PC22 and HI22 leave in the instruction, and what PC10 and LO10 do. */
  lemma HighField(r: Reloc, m: seq<Byte>)
    requires Relocatable(r, m) && (r.ty == 17 || r.ty == 9)
    ensures Field(r, After(r, m)) == Distance(r) / 0x400 % 0x40_0000
  {
    Powers();
    assert Table(r.ty).width == 22 && Table(r.ty).shift == 10;
    FieldDecodes(r, m);
  }

  lemma LowField(r: Reloc, m: seq<Byte>)
    requires Relocatable(r, m) && (r.ty == 16 || r.ty == 12)
    ensures Field(r, After(r, m)) == Distance(r) % 0x400
  {
    Powers();
    assert Table(r.ty).width == 10 && Table(r.ty).shift == 0;
    assert Value(r) == Distance(r);
    FieldDecodes(r, m);
  }

  /** Both fields together are the distance modulo 2^32. */
  lemma FieldsTogether(hi: Reloc, lo: Reloc, m: seq<Byte>, n: seq<Byte>)
    requires Relocatable(hi, m) && (hi.ty == 17 || hi.ty == 9) && Relocatable(lo, n) && (lo.ty == 16 || lo.ty == 12)
    requires Distance(hi) == Distance(lo)
    ensures Field(hi, After(hi, m)) * 0x400 + Field(lo, After(lo, n)) == Distance(hi) % W32
  {
    HighField(hi, m);
    LowField(lo, n);
    SplitWord(Distance(hi), Field(hi, After(hi, m)), Field(lo, After(lo, n)));
  }

  /** The fields of a PC22 and a PC10 are truncated; if both measure the same distance, as their addends
      make them do, together they are that distance modulo 2^32, so that adding the address gives the
      target. */
  lemma RelativePairReaches(hi: Reloc, lo: Reloc, m: seq<Byte>, n: seq<Byte>)
    requires hi.ty == 17 && lo.ty == 16 && Relocatable(hi, m) && Relocatable(lo, n) && Distance(hi) == Distance(lo)
    ensures Field(lo, After(lo, n)) == Distance(lo) % 0x400
    ensures Field(hi, After(hi, m)) * 0x400 + Field(lo, After(lo, n)) == Distance(hi) % W32
    ensures (Pc(hi) + Distance(hi) % W32) % W32 == (hi.sym + hi.addend) % W32
  {
    LowField(lo, n);
    FieldsTogether(hi, lo, m, n);
    FromPc(hi);
  }

  lemma FromPc(r: Reloc)
    requires Table(r.ty).relative
    ensures (Pc(r) + Distance(r) % W32) % W32 == (r.sym + r.addend) % W32
  {
    ModSum(Distance(r), Pc(r), W32);
  }

  /** The high 22 and the low 10 bits together are the value: the pair of a HI22 and a LO10. */
  lemma HighAndLow(hi: Reloc, lo: Reloc, m: seq<Byte>, n: seq<Byte>)
    requires hi.ty == 9 && lo.ty == 12 && Relocatable(hi, m) && Relocatable(lo, n)
    requires hi.sym + hi.addend == lo.sym + lo.addend
    ensures Field(hi, After(hi, m)) * 0x400 + Field(lo, After(lo, n)) == Distance(hi) % W32
    ensures Distance(hi) == hi.sym + hi.addend
  {
    Absolute(hi);
    Absolute(lo);
    FieldsTogether(hi, lo, m, n);
  }

  lemma Absolute(r: Reloc)
    requires r.ty == 9 || r.ty == 12
    ensures Distance(r) == r.sym + r.addend
  {
  }

  // ---- the types one by one, with their numbers

  lemma MorePowers()
    ensures Pow2(2) == 4 && Pow2(5) == 0x20 && Pow2(6) == 0x40 && Pow2(7) == 0x80 && Pow2(8) == 0x100
    ensures Pow2(11) == 0x800 && Pow2(13) == 0x2000 && Pow2(15) == 0x8000 && Pow2(16) == 0x1_0000
    ensures Pow2(21) == 0x20_0000 && Pow2(29) == 0x2000_0000 && Pow2(30) == 0x4000_0000 && Pow2(31) == 0x8000_0000
  {
    Powers();
    EightMore(0);
    EightMore(3);
    EightMore(5);
    EightMore(7);
    EightMore(8);
    EightMore(13);
    EightMore(21);
    EightMore(22);
    EightMore(23);
    assert Pow2(3) == 2 * Pow2(2) && Pow2(4) == 2 * Pow2(3);
    assert Pow2(23) == 2 * Pow2(22);
  }

  /** The number in the patched bytes. */
  function Now(r: Reloc, m: seq<Byte>, n: nat): nat
    requires r.offset + Table(r.ty).nbytes <= |m| && r.offset + n <= |m|
  {
    WordAt(After(r, m), r.offset, n)
  }

  /** What the patched bytes say, for a field of `q` values. */
  lemma FieldOf(r: Reloc, m: seq<Byte>, q: nat)
    requires Relocatable(r, m) && q == Pow2(Table(r.ty).width)
    ensures Field(r, After(r, m)) == Now(r, m, Table(r.ty).nbytes) % q == Value(r) % q
    ensures Now(r, m, Table(r.ty).nbytes) / q == WordAt(m, r.offset, Table(r.ty).nbytes) / q
  {
    FieldDecodes(r, m);
  }

  /** Address plus displacement in words is the target exactly if that is a whole number of words away. */
  lemma WordsReach(r: Reloc, m: seq<Byte>, half: nat)
    requires Relocatable(r, m) && Table(r.ty).relative && Table(r.ty).check == Sign && Table(r.ty).shift == 2
    requires half == Pow2(Table(r.ty).width - 1)
    ensures Pc(r) + 4 * SignedField(Field(r, After(r, m)), half) == r.sym + r.addend
       <==> (r.sym + r.addend - Pc(r)) % 4 == 0
  {
    FieldDecodes(r, m);
    InWords(r);
    Quarter(Pc(r), Value(r), Distance(r), r.sym + r.addend);
  }

  lemma Quarter(pc: nat, f: int, d: int, target: int)
    requires f == d / 4 && d == target - pc
    ensures pc + 4 * f == target <==> (target - pc) % 4 == 0
  {
  }

  lemma InWords(r: Reloc)
    requires Table(r.ty).shift == 2
    ensures Value(r) == Distance(r) / 4
  {
    assert Pow2(2) == 4;
  }

  lemma AlignedPlace(r: Reloc)
    requires ((r.vma + r.offset) % W32) % 4 == 0
    ensures (r.vma + r.offset) % 4 == 0
  {
    var a := r.vma + r.offset;
    assert a == (a / W32) * W32 + a % W32;
  }

  /** A call that was accepted: its address and 4 times its signed field of 30 bits are the target exactly if
      that is a whole number of words away; the opcode stays. */
  lemma CallReaches(r: Reloc, m: seq<Byte>)
    requires Relocatable(r, m) && r.ty == 7 // R_SPARC_WDISP30
    ensures r.offset + 4 <= |m| && (r.vma + r.offset) % 4 == 0
    ensures var pc, target := (r.vma + r.offset) % 0x1_0000_0000, r.sym + r.addend;
      pc + 4 * SignedField(Now(r, m, 4) % 0x4000_0000, 0x2000_0000) == target <==> (target - pc) % 4 == 0
    ensures Now(r, m, 4) / 0x4000_0000 == WordAt(m, r.offset, 4) / 0x4000_0000
  {
    MorePowers();
    FieldOf(r, m, 0x4000_0000);
    WordsReach(r, m, 0x2000_0000);
    AlignedPlace(r);
  }

  /** A branch that was accepted: the same with 22 bits. */
  lemma BranchReaches(r: Reloc, m: seq<Byte>)
    requires Relocatable(r, m) && r.ty == 8 // R_SPARC_WDISP22
    ensures r.offset + 4 <= |m| && (r.vma + r.offset) % 4 == 0
    ensures var pc, target := (r.vma + r.offset) % 0x1_0000_0000, r.sym + r.addend;
      pc + 4 * SignedField(Now(r, m, 4) % 0x40_0000, 0x20_0000) == target <==> (target - pc) % 4 == 0
    ensures Now(r, m, 4) / 0x40_0000 == WordAt(m, r.offset, 4) / 0x40_0000
  {
    Powers();
    MorePowers();
    FieldOf(r, m, 0x40_0000);
    WordsReach(r, m, 0x20_0000);
    AlignedPlace(r);
  }

  /** Bytes, halves and words that hold a distance hold exactly the one to the target. */
  lemma DistancesReach(r: Reloc, m: seq<Byte>)
    requires Relocatable(r, m) && 4 <= r.ty <= 6 // R_SPARC_DISP8, R_SPARC_DISP16, R_SPARC_DISP32
    ensures var pc, target := (r.vma + r.offset) % 0x1_0000_0000, r.sym + r.addend;
      && (r.ty == 4 ==> r.offset + 1 <= |m| && pc + SignedField(Now(r, m, 1), 0x80) == target)
      && (r.ty == 5 ==> r.offset + 2 <= |m| && pc + SignedField(Now(r, m, 2), 0x8000) == target)
      && (r.ty == 6 ==> r.offset + 4 <= |m| && pc + SignedField(Now(r, m, 4), 0x8000_0000) == target)
  {
    Powers();
    MorePowers();
    FieldDecodes(r, m);
    WholeField(r, m);
    assert Value(r) == Distance(r);
  }

  /** A field that fills its bytes is all of them. */
  lemma WholeField(r: Reloc, m: seq<Byte>)
    requires Relocatable(r, m) && Table(r.ty).width == 8 * Table(r.ty).nbytes
    ensures Field(r, After(r, m)) == Now(r, m, Table(r.ty).nbytes)
  {
    LimitIsPow2(Table(r.ty).nbytes);
    WordBelow(After(r, m), r.offset, Table(r.ty).nbytes);
    ModSmall(Now(r, m, Table(r.ty).nbytes), Pow2(Table(r.ty).width));
  }

  /** Data that holds a value: all of it modulo the size, aligned or not. */
  lemma DataHoldsValue(r: Reloc, m: seq<Byte>)
    requires Relocatable(r, m) && r.ty in [1, 2, 3, 23, 55] // R_SPARC_8, 16, 32, UA32, UA16
    ensures r.ty == 1 ==> r.offset + 1 <= |m| && Now(r, m, 1) == (r.sym + r.addend) % 0x100
    ensures r.ty == 2 || r.ty == 55 ==> r.offset + 2 <= |m| && Now(r, m, 2) == (r.sym + r.addend) % 0x1_0000
    ensures r.ty == 3 || r.ty == 23 ==> r.offset + 4 <= |m| && Now(r, m, 4) == (r.sym + r.addend) % 0x1_0000_0000
  {
    Powers();
    MorePowers();
    FieldOf(r, m, Pow2(Table(r.ty).width));
    WholeField(r, m);
    Unshifted(r);
  }

  lemma Unshifted(r: Reloc)
    requires Table(r.ty).shift == 0 && !Table(r.ty).relative
    ensures Value(r) == r.sym + r.addend
  {
  }

  /** Immediate fields of an instruction hold the low bits of the value, and the other bits stay. */
  function ImmediateSize(ty: nat): nat
  {
    match ty
    case 10 => 0x40_0000 // R_SPARC_22
    case 11 => 0x2000    // R_SPARC_13
    case 12 => 0x400     // R_SPARC_LO10
    case 30 => 0x400     // R_SPARC_10
    case 31 => 0x800     // R_SPARC_11
    case 43 => 0x80      // R_SPARC_7
    case 44 => 0x20      // R_SPARC_5
    case 45 => 0x40      // R_SPARC_6
    case _ => 0
  }

  lemma ImmediatesHoldValue(r: Reloc, m: seq<Byte>)
    requires Relocatable(r, m) && ImmediateSize(r.ty) > 0
    ensures r.offset + 4 <= |m| && Now(r, m, 4) % ImmediateSize(r.ty) == (r.sym + r.addend) % ImmediateSize(r.ty)
    ensures Now(r, m, 4) / ImmediateSize(r.ty) == WordAt(m, r.offset, 4) / ImmediateSize(r.ty)
  {
    ImmediatePower(r.ty);
    FieldOf(r, m, ImmediateSize(r.ty));
    Unshifted(r);
  }

  lemma ImmediatePower(ty: nat)
    requires ImmediateSize(ty) > 0
    ensures Table(ty).nbytes == 4 && Table(ty).shift == 0 && !Table(ty).relative
    ensures Pow2(Table(ty).width) == ImmediateSize(ty)
  {
    Powers();
    MorePowers();
  }

  /** HI22 holds bits 10 to 31 of the value and keeps the others. */
  lemma HighHoldsValue(r: Reloc, m: seq<Byte>)
    requires Relocatable(r, m) && r.ty == 9
    ensures r.offset + 4 <= |m| && Now(r, m, 4) % 0x40_0000 == (r.sym + r.addend) / 0x400 % 0x40_0000
    ensures Now(r, m, 4) / 0x40_0000 == WordAt(m, r.offset, 4) / 0x40_0000
  {
    Powers();
    FieldOf(r, m, 0x40_0000);
    HighField(r, m);
    Absolute(r);
  }

  predicate Known(ty: nat) { 1 <= ty <= 12 || ty in [16, 17, 23, 30, 31, 43, 44, 45, 55] }

  /** The places a type may patch. */
  predicate Fitting(ty: nat, at: nat)
  {
    if ty in [1, 4, 23, 55] then true else if ty == 2 || ty == 5 then at % 2 == 0 else at % 4 == 0
  }

  /** The least distance or value that is too large; negative ones go down to its opposite. */
  function Bound(ty: nat): nat
  {
    match ty
    case 1 => 0x100
    case 2 | 55 => 0x1_0000
    case 3 | 17 | 23 => 0x1_0000_0000
    case 4 | 43 => 0x80
    case 5 => 0x8000
    case 6 | 7 => 0x8000_0000
    case 8 => 0x80_0000
    case 10 => 0x40_0000
    case 11 => 0x2000
    case 30 => 0x400
    case 31 => 0x800
    case 44 => 0x20
    case _ => 0x40
  }

  function Values(width: nat): nat
  {
    match width
    case 5 => 0x20
    case 6 => 0x40
    case 7 => 0x80
    case 8 => 0x100
    case 10 => 0x400
    case 11 => 0x800
    case 13 => 0x2000
    case 16 => 0x1_0000
    case 22 => 0x40_0000
    case 30 => 0x4000_0000
    case _ => 0x1_0000_0000
  }

  function InUnits(d: int, shift: nat): int
  {
    if shift == 0 then d else if shift == 2 then d / 4 else d / 0x400
  }

  predicate Small(d: Desc, v: int)
  {
    match d.check
    case NoCheck => true
    case Bits => 0 - Values(d.width) <= v < Values(d.width)
    case Sign => 0 - Values(d.width) <= 2 * v < Values(d.width)
  }

  lemma KnownMeans(ty: nat)
    ensures Known(ty) <==> Table(ty).nbytes != 0
  {
  }

  lemma FittingMeans(ty: nat, at: nat)
    requires Known(ty)
    ensures Fitting(ty, at) <==> Table(ty).unaligned || at % Table(ty).nbytes == 0
  {
  }

  lemma BoundMeans(ty: nat, d: int)
    requires Known(ty)
    ensures Small(Table(ty), InUnits(d, Table(ty).shift)) <==>
      ty in [9, 12, 16] || 0 - Bound(ty) <= d < Bound(ty)
  {
  }

  predicate Tabled(t: Desc)
  {
    t.shift in [0, 2, 10] && t.width in [5, 6, 7, 8, 10, 11, 13, 16, 22, 30, 32]
  }

  lemma AllTabled(ty: nat)
    requires Table(ty).nbytes != 0
    ensures Tabled(Table(ty))
  {
  }

  lemma PowerIs(width: nat)
    requires width in [5, 6, 7, 8, 10, 11, 13, 16, 22, 30, 32]
    ensures Pow2(width) == 2 * Pow2(width - 1) == Values(width)
  {
    Powers();
    MorePowers();
  }

  lemma UnitIs(shift: nat, d: int)
    requires shift in [0, 2, 10]
    ensures d / Pow2(shift) == InUnits(d, shift)
  {
    Powers();
    MorePowers();
  }

  lemma SmallMeans(t: Desc, v: int)
    requires Tabled(t)
    ensures InRange(t, v) <==> Small(t, v)
  {
    PowerIs(t.width);
  }

  lemma InRangeIsSmall(t: Desc, d: int)
    requires Tabled(t)
    ensures InRange(t, d / Pow2(t.shift)) <==> Small(t, InUnits(d, t.shift))
  {
    UnitIs(t.shift, d);
    SmallMeans(t, InUnits(d, t.shift));
  }

  lemma IsRelative(ty: nat)
    ensures Table(ty).relative <==> ty in [4, 5, 6, 7, 8, 16, 17]
  {
  }

  lemma StatusMeans(r: Reloc)
    requires r.ty != 0
    ensures StatusOf(r) == Ok <==>
      var t := Table(r.ty);
      !r.und && t.nbytes != 0 && (t.unaligned || Pc(r) % t.nbytes == 0) && InRange(t, Distance(r) / Pow2(t.shift))
  {
  }

  lemma DistanceIs(r: Reloc)
    ensures Distance(r) ==
      r.sym + r.addend - if r.ty in [4, 5, 6, 7, 8, 16, 17] then (r.vma + r.offset) % 0x1_0000_0000 else 0
  {
    IsRelative(r.ty);
  }

  /** A relocation is carried out exactly if its symbol is defined, its type is known, and place and distance
      are such; HI22, LO10 and PC10 take any distance. */
  lemma AcceptedExactlyWhen(r: Reloc)
    requires r.ty != 0
    ensures StatusOf(r) == Ok <==>
      var pc := (r.vma + r.offset) % 0x1_0000_0000;
      var d := r.sym + r.addend - if r.ty in [4, 5, 6, 7, 8, 16, 17] then pc else 0;
      !r.und && Known(r.ty) && Fitting(r.ty, pc) && (r.ty in [9, 12, 16] || 0 - Bound(r.ty) <= d < Bound(r.ty))
  {
    StatusMeans(r);
    KnownMeans(r.ty);
    DistanceIs(r);
    if Known(r.ty) {
      AllTabled(r.ty);
      FittingMeans(r.ty, Pc(r));
      InRangeIsSmall(Table(r.ty), Distance(r));
      BoundMeans(r.ty, Distance(r));
    }
  }
}
