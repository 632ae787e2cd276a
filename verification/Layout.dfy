/** Link-time memory layout: one pass over the sections reserves space in the memory segments, a
    second one assigns addresses.  Addresses and sizes are unsigned machine words. */
module Layout {
  import opened Arith

  /** A section: `align` is the power of its alignment, `seg` the segment it is matched with. */
  datatype Section = Section(name: string, alloc: bool, linkOnce: bool, align: nat, size: nat, seg: nat, vma: nat)

  datatype Segment = Segment(chunk: nat, size: nat, vmacalc: nat)

  const EH_SECTION_NAME := ".eh_frame"

  /** The largest `unsigned long` plus one, and the size of a `long` in bytes. */
  function Wrap(bits: nat): (w: nat)
  {
    if bits == 32 then 0x1_0000_0000 else 0x1_0000_0000_0000_0000
  }

  function SizeOfLong(bits: nat): nat
  {
    if bits == 32 then 4 else 8
  }

  /** `align_power` in wrap-around arithmetic. */
  function AlignPower(addr: nat, p: nat, bits: nat): nat
  {
    var s := (addr + Pow2(p) - 1) % Wrap(bits);
    ModSmall(s, Pow2(p));
    s - s % Pow2(p)
  }

  /** Without overflow it is the least multiple of the power that is not below the address. */
  lemma AlignPowerIsLeast(addr: nat, p: nat, bits: nat)
    requires addr + Pow2(p) <= Wrap(bits)
    ensures addr <= AlignPower(addr, p, bits) < addr + Pow2(p)
    ensures Divides(Pow2(p), AlignPower(addr, p, bits))
    ensures forall k: nat :: k * Pow2(p) >= addr ==> k * Pow2(p) >= AlignPower(addr, p, bits)
  {
    var s := addr + Pow2(p) - 1;
    ModSmall(s, Wrap(bits));
    RoundDown(s, Pow2(p));
    assert AlignPower(addr, p, bits) == s - s % Pow2(p);
    forall k: nat | k * Pow2(p) >= addr ensures k * Pow2(p) >= AlignPower(addr, p, bits) {
      NoMultipleBetween(addr, Pow2(p), k);
    }
  }

  lemma NoMultipleBetween(addr: nat, m: nat, k: nat)
    requires m > 0 && k * m >= addr
    ensures k * m >= (addr + m - 1) - (addr + m - 1) % m
  {
    var q := (addr + m - 1) / m;
    DivMod(addr + m - 1, m);
    if k < q {
      MultiplesApart(m, k, q);
    } else {
      MulGrows(q, k, m);
    }
  }

  // ---- the alignment power of a section header

  /** The masks 0xffff0000, 0xff00ff00, 0xf0f0f0f0, 0xcccccccc and 0xaaaaaaaa, a word being written
      as the set of the positions of its one bits. */
  function Msk(i: nat): set<nat>
    requires i < 5
  {
    var d := [16, 8, 4, 2, 1][i];
    set b: nat | 0 <= b < 32 && b / d % 2 == 1
  }

  /** `ldz`: the position of the highest one bit, by bisection of the word. */
  method Ldz(x0: set<nat>) returns (rval: nat)
    requires forall b :: b in x0 ==> b < 32
    ensures x0 == {} ==> rval == 0
    ensures x0 != {} ==> rval in x0 && forall b :: b in x0 ==> b <= rval
  {
    rval := 0;
    var x := x0;
    for i := 0 to 5
      invariant Bisecting(x0, x, i, rval)
    {
      ghost var was := x;
      rval := 2 * rval;
      if x * Msk(i) != {} {
        x := x * Msk(i);
        rval := rval + 1;
      } else {
        x := x - Msk(i);
      }
      BisectStep(x0, was, i, rval / 2, x, rval);
    }
  }

  /** The candidates after `i` rounds: they share their leading bits, and every bit that was
      dropped is lower than all of them. */
  ghost predicate Bisecting(x0: set<nat>, x: set<nat>, i: nat, rval: nat)
    requires i <= 5
  {
    && x <= x0 && (x == {} ==> x0 == {} && rval == 0)
    && (forall b :: b in x ==> b < 32 && b / [32, 16, 8, 4, 2, 1][i] == rval)
    && (forall b, c :: b in x0 && b !in x && c in x ==> b < c)
  }

  lemma Halve(b: nat, d: nat)
    requires d > 0
    ensures b / d == 2 * (b / (2 * d)) + b / d % 2
  {
    var q := b / d;
    DivMod(b, d);
    assert q * d == (q / 2) * (2 * d) + (q % 2) * d;
    DivUnique(b, 2 * d, q / 2, (q % 2) * d + b % d);
  }

  /** A round finds the next binary digit of a position. */
  lemma NextDigit(b: nat, i: nat)
    requires b < 32 && i < 5
    ensures b / [32, 16, 8, 4, 2, 1][i + 1] == 2 * (b / [32, 16, 8, 4, 2, 1][i]) + if b in Msk(i) then 1 else 0
  {
    var d := [16, 8, 4, 2, 1][i];
    assert [32, 16, 8, 4, 2, 1][i] == 2 * d && [32, 16, 8, 4, 2, 1][i + 1] == d;
    Halve(b, d);
    assert b in Msk(i) <==> b / d % 2 == 1;
  }

  lemma DigitOrder(b: nat, c: nat, i: nat)
    requires b < 32 && c < 32 && i < 6 && b / [32, 16, 8, 4, 2, 1][i] < c / [32, 16, 8, 4, 2, 1][i]
    ensures b < c
  {
  }

  lemma BisectStep(x0: set<nat>, x: set<nat>, i: nat, rval: nat, x': set<nat>, rval': nat)
    requires i < 5 && Bisecting(x0, x, i, rval)
    requires if x * Msk(i) != {} then x' == x * Msk(i) && rval' == 2 * rval + 1
             else x' == x - Msk(i) && rval' == 2 * rval
    ensures Bisecting(x0, x', i + 1, rval')
  {
    var both := x * Msk(i);
    forall b | b in x'
      ensures b < 32 && b / [32, 16, 8, 4, 2, 1][i + 1] == rval'
    {
      NextDigit(b, i);
      assert b in Msk(i) ==> b in both;
    }
    forall b, c | b in x0 && b !in x' && c in x' ensures b < c {
      if b in x {
        NextDigit(b, i);
        NextDigit(c, i);
        assert b in Msk(i) ==> b in both;
        DigitOrder(b, c, i + 1);
      }
    }
    NothingLost(x, Msk(i), x');
  }

  lemma NothingLost(x: set<nat>, m: set<nat>, x': set<nat>)
    requires if x * m != {} then x' == x * m else x' == x - m
    ensures x' == {} ==> x == {}
  {
    if x != {} && x * m == {} {
      var b :| b in x;
      assert b in m ==> b in x * m;
      assert b in x';
    }
  }

  // ---- how much is needed

  predicate IsEh(s: Section)
  {
    s.alloc && !s.linkOnce && s.name == EH_SECTION_NAME
  }

  /** What a section takes at most: room to align it, its size, and a terminating zero. */
  function Room(s: Section, bits: nat): nat
  {
    if !s.alloc then 0
    else Pow2(s.align) - 1 + s.size + if IsEh(s) then SizeOfLong(bits) else 0
  }

  /** The space that a list of sections takes in segment `g`. */
  function Reserve(secs: seq<Section>, g: nat, bits: nat): nat
  {
    if secs == [] then 0
    else
      var s := secs[|secs| - 1];
      Reserve(secs[..|secs| - 1], g, bits) + if s.seg == g then Room(s, bits) else 0
  }

  lemma ReserveSnoc(secs: seq<Section>, i: nat, g: nat, bits: nat)
    requires i < |secs|
    ensures Reserve(secs[..i + 1], g, bits)
         == Reserve(secs[..i], g, bits) + if secs[i].seg == g then Room(secs[i], bits) else 0
  {
    assert secs[..i + 1][..i] == secs[..i];
  }

  lemma {:induction false} ReserveGrows(secs: seq<Section>, i: nat, j: nat, g: nat, bits: nat)
    requires i <= j <= |secs|
    ensures Reserve(secs[..i], g, bits) <= Reserve(secs[..j], g, bits)
    decreases j
  {
    if i < j {
      ReserveGrows(secs, i, j - 1, g, bits);
      ReserveSnoc(secs, j - 1, g, bits);
    }
  }

  /** The section that gets the terminating zero: the last exception frame table. */
  function EhSection(secs: seq<Section>): int
  {
    if secs == [] then -1
    else if IsEh(secs[|secs| - 1]) then |secs| - 1 else EhSection(secs[..|secs| - 1])
  }

  /** `e` is the last loaded section called `.eh_frame`, or -1 if there is none. */
  ghost predicate LastTable(secs: seq<Section>, e: int)
  {
    && -1 <= e < |secs|
    && (e >= 0 ==> secs[e].alloc && !secs[e].linkOnce && secs[e].name == ".eh_frame")
    && (forall j :: e < j < |secs| ==> !(secs[j].alloc && !secs[j].linkOnce && secs[j].name == ".eh_frame"))
  }

  lemma {:induction false} EhIsLast(all: seq<Section>)
    ensures LastTable(all, EhSection(all))
  {
    if all != [] {
      var t := all[..|all| - 1];
      EhIsLast(t);
      assert forall j :: 0 <= j < |t| ==> t[j] == all[j];
    }
  }

  lemma LastIsEh(all: seq<Section>, e: int)
    requires LastTable(all, e)
    ensures e == EhSection(all)
  {
    EhIsLast(all);
  }

  predicate Dangerous(s: Section)
  {
    s.alloc && !s.linkOnce && s.size > 0 && (s.name == ".fixup" || s.name == ".got" || s.name == ".got2")
  }

  predicate SegsOk(secs: seq<Section>, nsegs: nat)
  {
    forall i :: 0 <= i < |secs| ==> secs[i].seg < nsegs && secs[i].align < 31
  }

  /** The reservations after some sections. */
  ghost predicate Counted(segs: seq<Segment>, was: seq<Segment>, p: seq<Section>, bits: nat)
  {
    |segs| == |was| && forall g :: 0 <= g < |segs| ==>
      segs[g] == was[g].(size := (was[g].size + Reserve(p, g, bits)) % Wrap(bits))
  }

  /** `s_count`, mapped over all sections. */
  method Count(secs: array<Section>, segs: array<Segment>, bits: nat) returns (eh: int, errors: nat)
    requires SegsOk(secs[..], segs.Length)
    requires forall g :: 0 <= g < segs.Length ==> segs[g].size < Wrap(bits)
    modifies segs
    ensures Counted(segs[..], old(segs[..]), secs[..], bits) && eh == EhSection(secs[..])
    ensures LastTable(secs[..], eh)
    ensures errors > 0 <==> exists i :: 0 <= i < secs.Length && Dangerous(secs[i])
  {
    eh, errors := -1, 0;
    ghost var all := secs[..];
    for i := 0 to secs.Length
      invariant secs[..] == all && Counted(segs[..], old(segs[..]), all[..i], bits) && eh == EhSection(all[..i])
      invariant errors > 0 <==> exists k :: 0 <= k < i && Dangerous(secs[k])
    {
      CountOne(segs, secs[i], bits, all, i, old(segs[..]));
      assert all[..i + 1][..i] == all[..i];
      if secs[i].alloc && !secs[i].linkOnce {
        if secs[i].name == EH_SECTION_NAME {
          eh := i;
        } else if secs[i].size > 0 && (secs[i].name == ".fixup" || secs[i].name == ".got" || secs[i].name == ".got2") {
          errors := errors + 1;
        }
      }
    }
    assert all[..|all|] == all;
    EhIsLast(all);
  }

  /** The size accounting of `s_count` for one section. */
  method CountOne(segs: array<Segment>, s: Section, bits: nat, ghost all: seq<Section>, ghost i: nat,
                  ghost was: seq<Segment>)
    requires i < |all| && s == all[i] && s.seg < segs.Length && s.align < 31
    requires Counted(segs[..], was, all[..i], bits)
    modifies segs
    ensures Counted(segs[..], was, all[..i + 1], bits)
  {
    ghost var before, size0 := segs[..], was[s.seg].size + Reserve(all[..i], s.seg, bits);
    if s.alloc {
      var g := s.seg;
      assert before[g] == segs[g];
      var size := (segs[g].size + (Pow2(s.align) - 1)) % Wrap(bits);
      size := (size + s.size) % Wrap(bits);
      if !s.linkOnce && s.name == EH_SECTION_NAME {
        size := (size + SizeOfLong(bits)) % Wrap(bits);
      }
      SumWraps(size0, s, bits);
      segs[g] := segs[g].(size := size);
      assert segs[..] == before[g := before[g].(size := size)];
    } else {
      assert before[s.seg].size == size0 % Wrap(bits);
      assert before[s.seg := before[s.seg].(size := size0 % Wrap(bits))] == before;
    }
    CountedStep(before, was, all, i, bits);
  }

  lemma CountedStep(before: seq<Segment>, was: seq<Segment>, all: seq<Section>, i: nat, bits: nat)
    requires i < |all| && all[i].seg < |was| && Counted(before, was, all[..i], bits)
    ensures var g := all[i].seg;
      var size := (was[g].size + Reserve(all[..i], g, bits) + Room(all[i], bits)) % Wrap(bits);
      Counted(before[g := before[g].(size := size)], was, all[..i + 1], bits)
  {
    forall g | 0 <= g < |was|
      ensures Reserve(all[..i + 1], g, bits)
           == Reserve(all[..i], g, bits) + if all[i].seg == g then Room(all[i], bits) else 0
    {
      ReserveSnoc(all, i, g, bits);
    }
  }

  /** Adding up with a wrap at every step is adding up with one wrap at the end. */
  lemma SumWraps(x: nat, s: Section, bits: nat)
    requires s.alloc
    ensures var y := ((x % Wrap(bits) + (Pow2(s.align) - 1)) % Wrap(bits) + s.size) % Wrap(bits);
      (if IsEh(s) then (y + SizeOfLong(bits)) % Wrap(bits) else y) == (x + Room(s, bits)) % Wrap(bits)
  {
    var a := Pow2(s.align) - 1;
    AddWrap(x, a, bits);
    AddWrap(x + a, s.size, bits);
    AddWrap(x + a + s.size, SizeOfLong(bits), bits);
  }

  lemma AddWrap(x: nat, y: nat, bits: nat)
    ensures (x % Wrap(bits) + y) % Wrap(bits) == (x + y) % Wrap(bits)
  {
    ModSum(x, y, Wrap(bits));
  }

  // ---- where everything goes

  /** Only sections that take memory are placed. */
  predicate Takes(s: Section)
  {
    s.alloc && s.size > 0
  }

  /** The first address behind a placed section and its terminating zero, if it has one. */
  function End(s: Section, zero: bool, bits: nat): nat
  {
    s.vma + s.size + if zero then SizeOfLong(bits) else 0
  }

  ghost predicate Fits(s: Section, lo: nat, hi: nat, zero: bool, bits: nat)
  {
    lo <= s.vma && Divides(Pow2(s.align), s.vma) && End(s, zero, bits) <= hi
  }

  /** What the chunks must offer: memory for every segment in use, that ends inside the address space. */
  ghost predicate ChunksOk(segs: seq<Segment>, all: seq<Section>, bits: nat)
  {
    && SegsOk(all, |segs|)
    && forall g :: 0 <= g < |segs| ==> ChunkOk(segs[g].chunk, Reserve(all, g, bits), bits)
  }

  predicate ChunkOk(chunk: nat, size: nat, bits: nat)
  {
    (size > 0 ==> chunk != 0) && chunk + size < Wrap(bits)
  }

  /** The working counter of a segment of which `used` bytes have been claimed. */
  predicate CounterOk(seg: Segment, used: nat, bits: nat)
  {
    if seg.chunk == 0 then seg.vmacalc == Wrap(bits) - 1 else seg.chunk <= seg.vmacalc <= seg.chunk + used
  }

  /** The counters after the sections `all[..i]`. */
  ghost predicate CountersOk(segs: seq<Segment>, start: seq<Segment>, all: seq<Section>, i: nat, bits: nat)
    requires i <= |all|
  {
    |segs| == |start| && forall g :: 0 <= g < |segs| ==>
      segs[g] == start[g].(vmacalc := segs[g].vmacalc) && CounterOk(segs[g], Reserve(all[..i], g, bits), bits)
  }

  /** Only the addresses of sections that take memory change. */
  ghost predicate SameButVma(t: seq<Section>, all: seq<Section>, i: nat)
  {
    |t| == |all| && forall j :: 0 <= j < |t| ==>
      t[j] == if j < i && Takes(all[j]) then all[j].(vma := t[j].vma) else all[j]
  }

  ghost predicate AllFit(t: seq<Section>, segs: seq<Segment>, eh: int, i: nat, bits: nat)
    requires i <= |t| && SegsOk(t, |segs|)
  {
    forall j :: 0 <= j < i && Takes(t[j]) ==>
      Fits(t[j], segs[t[j].seg].chunk, segs[t[j].seg].vmacalc, j == eh, bits)
  }

  /** Later sections of a segment start behind earlier ones. */
  ghost predicate InOrder(t: seq<Section>, eh: int, i: nat, bits: nat)
    requires i <= |t|
  {
    forall j, k :: 0 <= j < k < i && Takes(t[j]) && Takes(t[k]) && t[j].seg == t[k].seg ==>
      End(t[j], j == eh, bits) <= t[k].vma
  }

  ghost predicate Placed(t: seq<Section>, segs: seq<Segment>, all: seq<Section>, start: seq<Segment>, i: nat, bits: nat)
    requires i <= |all|
  {
    && SameButVma(t, all, i) && SegsOk(t, |segs|) && CountersOk(segs, start, all, i, bits)
    && AllFit(t, segs, EhSection(all), i, bits) && InOrder(t, EhSection(all), i, bits)
  }

  lemma EhIsEh(all: seq<Section>)
    ensures -1 <= EhSection(all) < |all|
    ensures EhSection(all) >= 0 ==> IsEh(all[EhSection(all)])
  {
    EhIsLast(all);
  }

  /** The claim of one section stays within its reservation; the counter is valid. */
  lemma ClaimFits(seg: Segment, s: Section, zero: bool, used: nat, total: nat, bits: nat)
    requires CounterOk(seg, used, bits) && ChunkOk(seg.chunk, total, bits) && Takes(s) && (zero ==> IsEh(s))
    requires used + Room(s, bits) <= total
    ensures seg.vmacalc != Wrap(bits) - 1
    ensures var v := AlignPower(seg.vmacalc, s.align, bits);
      && Fits(s.(vma := v), seg.vmacalc, seg.vmacalc + Room(s, bits), zero, bits)
      && End(s.(vma := v), zero, bits) < Wrap(bits) && v + s.size < Wrap(bits)
  {
    AlignPowerIsLeast(seg.vmacalc, s.align, bits);
  }

  lemma RoomLeft(all: seq<Section>, i: nat, bits: nat)
    requires i < |all|
    ensures Reserve(all[..i], all[i].seg, bits) + Room(all[i], bits) <= Reserve(all, all[i].seg, bits)
  {
    assert all[..|all|] == all;
    ReserveSnoc(all, i, all[i].seg, bits);
    ReserveGrows(all, i + 1, |all|, all[i].seg, bits);
  }

  /** A section that is to be placed finds a valid counter, and its place. */
  ghost predicate Claim(seg: Segment, s: Section, zero: bool, bits: nat)
  {
    && seg.vmacalc != Wrap(bits) - 1 && seg.chunk != 0 && seg.chunk <= seg.vmacalc
    && var v := s.(vma := AlignPower(seg.vmacalc, s.align, bits));
       v.vma + v.size < Wrap(bits) && End(v, zero, bits) < Wrap(bits)
       && Fits(v, seg.vmacalc, seg.vmacalc + Room(s, bits), zero, bits)
  }

  lemma ClaimsFit(segs: seq<Segment>, all: seq<Section>, start: seq<Segment>, i: nat, bits: nat)
    requires i < |all| && CountersOk(segs, start, all, i, bits) && ChunksOk(start, all, bits) && Takes(all[i])
    ensures all[i].seg < |segs| && Claim(segs[all[i].seg], all[i], i == EhSection(all), bits)
  {
    var g := all[i].seg;
    assert segs[g] == start[g].(vmacalc := segs[g].vmacalc) && CounterOk(segs[g], Reserve(all[..i], g, bits), bits);
    assert ChunkOk(start[g].chunk, Reserve(all, g, bits), bits);
    EhIsEh(all);
    RoomLeft(all, i, bits);
    ClaimFits(segs[g], all[i], i == EhSection(all), Reserve(all[..i], g, bits), Reserve(all, g, bits), bits);
  }

  /** One more section takes its place. */
  lemma PlaceStep(t: seq<Section>, segs: seq<Segment>, all: seq<Section>, start: seq<Segment>, i: nat, bits: nat,
                  t': seq<Section>, segs': seq<Segment>)
    requires i < |all| && Placed(t, segs, all, start, i, bits) && Takes(all[i])
    requires all[i].seg < |segs| && Claim(segs[all[i].seg], all[i], i == EhSection(all), bits)
    requires var g, zero := all[i].seg, i == EhSection(all);
      var s := all[i].(vma := AlignPower(segs[g].vmacalc, all[i].align, bits));
      t' == t[i := s] && segs' == segs[g := segs[g].(vmacalc := End(s, zero, bits))]
    ensures Placed(t', segs', all, start, i + 1, bits)
  {
    assert t[i] == all[i];
    CountersStep(segs, start, all, i, bits, segs');
    FitStep(t, segs, EhSection(all), i, bits, t', segs');
    OrderStep(t, segs, EhSection(all), i, bits, t'[i]);
  }

  lemma FitStep(t: seq<Section>, segs: seq<Segment>, eh: int, i: nat, bits: nat, t': seq<Section>, segs': seq<Segment>)
    requires i < |t| && SegsOk(t, |segs|) && AllFit(t, segs, eh, i, bits)
    requires |t'| == |t| && t' == t[i := t'[i]] && t'[i].seg == t[i].seg && t'[i].align == t[i].align
    requires var g := t[i].seg;
      && |segs'| == |segs| && segs' == segs[g := segs[g].(vmacalc := segs'[g].vmacalc)]
      && segs[g].chunk <= segs[g].vmacalc && Fits(t'[i], segs[g].vmacalc, segs'[g].vmacalc, i == eh, bits)
    ensures SegsOk(t', |segs'|) && AllFit(t', segs', eh, i + 1, bits)
  {
    forall j | 0 <= j < i + 1 && Takes(t'[j])
      ensures Fits(t'[j], segs'[t'[j].seg].chunk, segs'[t'[j].seg].vmacalc, j == eh, bits)
    {
      assert j < i ==> t'[j] == t[j] && Fits(t[j], segs[t[j].seg].chunk, segs[t[j].seg].vmacalc, j == eh, bits);
    }
  }

  lemma OrderStep(t: seq<Section>, segs: seq<Segment>, eh: int, i: nat, bits: nat, s: Section)
    requires i < |t| && SegsOk(t, |segs|) && AllFit(t, segs, eh, i, bits) && InOrder(t, eh, i, bits)
    requires s.seg == t[i].seg && segs[s.seg].vmacalc <= s.vma
    ensures InOrder(t[i := s], eh, i + 1, bits)
  {
    var t' := t[i := s];
    forall j, k | 0 <= j < k < i + 1 && Takes(t'[j]) && Takes(t'[k]) && t'[j].seg == t'[k].seg
      ensures End(t'[j], j == eh, bits) <= t'[k].vma
    {
      assert Fits(t[j], segs[t[j].seg].chunk, segs[t[j].seg].vmacalc, j == eh, bits);
    }
  }

  lemma CountersStep(segs: seq<Segment>, start: seq<Segment>, all: seq<Section>, i: nat, bits: nat, segs': seq<Segment>)
    requires i < |all| && CountersOk(segs, start, all, i, bits) && SegsOk(all, |segs|)
    requires var g := all[i].seg;
      && |segs'| == |segs| && segs[g].chunk != 0 && segs' == segs[g := segs[g].(vmacalc := segs'[g].vmacalc)]
      && segs[g].vmacalc <= segs'[g].vmacalc <= segs[g].vmacalc + Room(all[i], bits)
    ensures CountersOk(segs', start, all, i + 1, bits)
  {
    forall g | 0 <= g < |segs'|
      ensures segs'[g] == start[g].(vmacalc := segs'[g].vmacalc)
      ensures CounterOk(segs'[g], Reserve(all[..i + 1], g, bits), bits)
    {
      ReserveSnoc(all, i, g, bits);
      assert segs[g] == start[g].(vmacalc := segs[g].vmacalc);
    }
  }

  lemma PassStep(t: seq<Section>, segs: seq<Segment>, all: seq<Section>, start: seq<Segment>, i: nat, bits: nat)
    requires i < |all| && Placed(t, segs, all, start, i, bits) && !Takes(all[i])
    ensures Placed(t, segs, all, start, i + 1, bits)
  {
    forall g | 0 <= g < |segs| ensures CounterOk(segs[g], Reserve(all[..i + 1], g, bits), bits) {
      ReserveSnoc(all, i, g, bits);
    }
  }

  /** Step the working counter over a section and the terminating zero. */
  method Advance(vma: nat, size: nat, zero: bool, bits: nat) returns (next: nat)
    requires vma + size < Wrap(bits) && vma + size + (if zero then SizeOfLong(bits) else 0) < Wrap(bits)
    ensures next == vma + size + if zero then SizeOfLong(bits) else 0
  {
    next := (vma + size) % Wrap(bits);
    if zero {
      next := (next + SizeOfLong(bits)) % Wrap(bits);
    }
  }

  /** `s_setvma` for one section. */
  method SetVmaOne(secs: array<Section>, segs: array<Segment>, i: nat, eh: int, bits: nat,
                   ghost all: seq<Section>, ghost start: seq<Segment>) returns (ok: bool)
    requires secs != segs as object && i < |all| == secs.Length && eh == EhSection(all)
    requires ChunksOk(start, all, bits) && Placed(secs[..], segs[..], all, start, i, bits)
    modifies secs, segs
    ensures ok && Placed(secs[..], segs[..], all, start, i + 1, bits)
  {
    ghost var t, u := secs[..], segs[..];
    assert t[i] == all[i];
    if !secs[i].alloc || secs[i].size == 0 {
      PassStep(t, u, all, start, i, bits);
      return true;
    }
    var s, g := secs[i], secs[i].seg;
    ClaimsFit(u, all, start, i, bits);
    if segs[g].vmacalc == Wrap(bits) - 1 {
      return false;
    }
    var vma := AlignPower(segs[g].vmacalc, s.align, bits);
    secs[i] := s.(vma := vma);
    var next := Advance(vma, s.size, eh == i, bits);
    segs[g] := segs[g].(vmacalc := next);
    assert segs[..] == u[g := u[g].(vmacalc := End(s.(vma := vma), i == eh, bits))];
    PlaceStep(t, u, all, start, i, bits, secs[..], segs[..]);
    return true;
  }

  /** `s_setvma`, mapped over all sections. */
  method SetVma(secs: array<Section>, segs: array<Segment>, eh: int, bits: nat) returns (errors: nat)
    requires secs != segs as object && eh == EhSection(secs[..]) && ChunksOk(segs[..], secs[..], bits)
    requires forall g :: 0 <= g < segs.Length ==> CounterOk(segs[g], 0, bits)
    modifies secs, segs
    ensures errors == 0
    ensures Placed(secs[..], segs[..], old(secs[..]), old(segs[..]), secs.Length, bits)
  {
    ghost var all, start := secs[..], segs[..];
    errors := 0;
    for i := 0 to secs.Length
      invariant errors == 0 && Placed(secs[..], segs[..], all, start, i, bits)
    {
      var ok := SetVmaOne(secs, segs, i, eh, bits, all, start);
      errors := errors + if ok then 0 else 1;
    }
  }

  // ---- the whole phase

  /** Every placed section is aligned and lies, with its terminating zero, in the memory that was
      reserved for its segment, and no two of a segment overlap. */
  ghost predicate Laid(t: seq<Section>, segs: seq<Segment>, eh: int, bits: nat)
    requires SegsOk(t, |segs|)
  {
    && (forall j :: 0 <= j < |t| && Takes(t[j]) ==>
          Fits(t[j], segs[t[j].seg].chunk, segs[t[j].seg].chunk + segs[t[j].seg].size, j == eh, bits))
    && (forall j, k :: 0 <= j < |t| && 0 <= k < |t| && j != k && Takes(t[j]) && Takes(t[k]) && t[j].seg == t[k].seg ==>
          End(t[j], j == eh, bits) <= t[k].vma || End(t[k], k == eh, bits) <= t[j].vma)
  }

  lemma PlacedIsLaid(t: seq<Section>, segs: seq<Segment>, all: seq<Section>, start: seq<Segment>, bits: nat)
    requires Placed(t, segs, all, start, |all|, bits) && ChunksOk(start, all, bits)
    requires forall g :: 0 <= g < |start| ==> start[g].size == Reserve(all, g, bits)
    ensures Laid(t, segs, EhSection(all), bits)
  {
    var eh := EhSection(all);
    assert all[..|all|] == all;
    forall j | 0 <= j < |t| && Takes(t[j])
      ensures Fits(t[j], segs[t[j].seg].chunk, segs[t[j].seg].chunk + segs[t[j].seg].size, j == eh, bits)
    {
      var g := t[j].seg;
      assert segs[g] == start[g].(vmacalc := segs[g].vmacalc) && CounterOk(segs[g], Reserve(all, g, bits), bits);
      ChunkInUse(all, j, bits);
    }
  }

  lemma ChunkInUse(all: seq<Section>, j: nat, bits: nat)
    requires j < |all| && Takes(all[j])
    ensures Reserve(all, all[j].seg, bits) > 0
  {
    RoomLeft(all, j, bits);
  }

  predicate Apart(g: Segment, h: Segment)
  {
    g.chunk + g.size <= h.chunk || h.chunk + h.size <= g.chunk
  }

  /** Sections of chunks that do not overlap. */
  lemma ElsewhereInChunk(t: seq<Section>, segs: seq<Segment>, eh: int, j: nat, k: nat, bits: nat)
    requires SegsOk(t, |segs|) && Laid(t, segs, eh, bits) && j < |t| && k < |t| && Takes(t[j]) && Takes(t[k])
    requires Apart(segs[t[j].seg], segs[t[k].seg])
    ensures End(t[j], j == eh, bits) <= t[k].vma || End(t[k], k == eh, bits) <= t[j].vma
  {
    assert Fits(t[j], segs[t[j].seg].chunk, segs[t[j].seg].chunk + segs[t[j].seg].size, j == eh, bits);
    assert Fits(t[k], segs[t[k].seg].chunk, segs[t[k].seg].chunk + segs[t[k].seg].size, k == eh, bits);
  }

  /** With chunks that do not overlap, no two placed sections do. */
  lemma DisjointEverywhere(t: seq<Section>, segs: seq<Segment>, eh: int, bits: nat, j: nat, k: nat)
    requires SegsOk(t, |segs|) && Laid(t, segs, eh, bits) && j < |t| && k < |t| && j != k && Takes(t[j]) && Takes(t[k])
    requires forall g, h :: 0 <= g < |segs| && 0 <= h < |segs| && g != h ==> Apart(segs[g], segs[h])
    ensures End(t[j], j == eh, bits) <= t[k].vma || End(t[k], k == eh, bits) <= t[j].vma
  {
    if t[j].seg != t[k].seg {
      ElsewhereInChunk(t, segs, eh, j, k, bits);
    }
  }

  /** The word behind section `e`, which is going to be overwritten with zero, lies in the memory of the
      segment and meets no other section; those of other segments if the chunks do not overlap. */
  ghost predicate RoomForZero(t: seq<Section>, segs: seq<Segment>, e: nat, bits: nat)
    requires e < |t| && SegsOk(t, |segs|)
  {
    var z, n := t[e].vma + t[e].size, if bits == 32 then 4 else 8;
    && segs[t[e].seg].chunk <= z && z + n <= segs[t[e].seg].chunk + segs[t[e].seg].size
    && forall j :: 0 <= j < |t| && j != e && Separate(t, segs, j, e) ==>
         t[j].vma + t[j].size <= z || z + n <= t[j].vma
  }

  /** Section `j` takes memory, in the segment of section `e` or in one apart from it. */
  predicate Separate(t: seq<Section>, segs: seq<Segment>, j: nat, e: nat)
    requires j < |t| && e < |t| && SegsOk(t, |segs|)
  {
    t[j].alloc && t[j].size > 0 && (t[j].seg == t[e].seg || Apart(segs[t[j].seg], segs[t[e].seg]))
  }

  lemma ZeroHasRoom(all: seq<Section>, t: seq<Section>, segs: seq<Segment>, e: int, bits: nat)
    requires LastTable(all, e) && e >= 0 && all[e].size > 0 && SameButVma(t, all, |all|)
    requires SegsOk(t, |segs|) && Laid(t, segs, EhSection(all), bits)
    ensures RoomForZero(t, segs, e, bits)
  {
    LastIsEh(all, e);
    assert t[e] == all[e].(vma := t[e].vma);
    forall j | 0 <= j < |t| && j != e && Separate(t, segs, j, e)
      ensures t[j].vma + t[j].size <= t[e].vma + t[e].size
              || t[e].vma + t[e].size + SizeOfLong(bits) <= t[j].vma
    {
      assert Takes(t[j]) && Takes(t[e]);
      if t[j].seg != t[e].seg {
        ElsewhereInChunk(t, segs, e, j, e, bits);
      }
    }
  }

  lemma ZeroForLast(all: seq<Section>, t: seq<Section>, segs: seq<Segment>, bits: nat)
    requires SameButVma(t, all, |all|) && SegsOk(t, |segs|) && Laid(t, segs, EhSection(all), bits)
    ensures forall e :: 0 <= e < |t| && LastTable(all, e) && t[e].size > 0 ==> RoomForZero(t, segs, e, bits)
  {
    forall e | 0 <= e < |t| && LastTable(all, e) && t[e].size > 0 ensures RoomForZero(t, segs, e, bits) {
      ZeroHasRoom(all, t, segs, e, bits);
    }
  }

  /** The layout phase of `cexpLoadFile`; `chunks` is the memory the segments get. */
  method LayOut(secs: array<Section>, segs: array<Segment>, chunks: seq<nat>, bits: nat) returns (ok: bool)
    requires secs != segs as object && SegsOk(secs[..], segs.Length) && |chunks| == segs.Length
    requires forall g :: 0 <= g < segs.Length ==> segs[g].size == 0
    requires forall g :: 0 <= g < segs.Length ==> ChunkOk(chunks[g], Reserve(secs[..], g, bits), bits)
    modifies secs, segs
    ensures ok <==> forall i :: 0 <= i < secs.Length ==> !Dangerous(old(secs[i]))
    ensures SameButVma(secs[..], old(secs[..]), secs.Length)
    ensures ok ==> SegsOk(secs[..], segs.Length) && Laid(secs[..], segs[..], EhSection(old(secs[..])), bits)
    ensures ok ==> forall e :: 0 <= e < secs.Length && LastTable(old(secs[..]), e) && secs[e].size > 0 ==>
      RoomForZero(secs[..], segs[..], e, bits)
    ensures ok ==> forall g :: 0 <= g < segs.Length ==>
      segs[g].chunk == chunks[g] && segs[g].size == Reserve(old(secs[..]), g, bits)
  {
    ghost var all, was := secs[..], segs[..];
    var eh, errors := Count(secs, segs, bits);
    if errors > 0 {
      return false;
    }
    Sizes(segs[..], was, all, chunks, bits);
    for g := 0 to segs.Length
      invariant secs[..] == all
      invariant forall h :: 0 <= h < segs.Length ==> segs[h].size == Reserve(all, h, bits)
      invariant forall h :: 0 <= h < g ==> segs[h].chunk == chunks[h] && CounterOk(segs[h], 0, bits)
    {
      var chunk := chunks[g];
      segs[g] := segs[g].(chunk := chunk, vmacalc := if chunk != 0 then chunk else Wrap(bits) - 1);
    }
    ghost var start := segs[..];
    errors := SetVma(secs, segs, eh, bits);
    PlacedIsLaid(secs[..], segs[..], all, start, bits);
    ZeroForLast(all, secs[..], segs[..], bits);
    return errors == 0;
  }

  lemma Sizes(segs: seq<Segment>, was: seq<Segment>, all: seq<Section>, chunks: seq<nat>, bits: nat)
    requires Counted(segs, was, all, bits) && |chunks| == |segs|
    requires forall g :: 0 <= g < |was| ==> was[g].size == 0
    requires forall g :: 0 <= g < |segs| ==> ChunkOk(chunks[g], Reserve(all, g, bits), bits)
    ensures forall g :: 0 <= g < |segs| ==> segs[g].size == Reserve(all, g, bits)
  {
    forall g | 0 <= g < |segs| ensures segs[g].size == Reserve(all, g, bits) {
      assert segs[g] == was[g].(size := (was[g].size + Reserve(all, g, bits)) % Wrap(bits));
      assert ChunkOk(chunks[g], Reserve(all, g, bits), bits);
    }
  }
}
