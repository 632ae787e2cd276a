/** Storage for new common symbols: sorted by alignment, packed into one dummy section. */
module Commons {
  import opened Arith
  import opened Layout
  import Qsort

  /** A symbol without storage: common, with its alignment in `val`, or undefined and weak. */
  datatype CommonSym = CommonSym(com: bool, val: nat, size: nat)

  /** `elf_get_align`: an `unsigned`, and never 0. */
  function AlignOf(s: CommonSym): (a: nat)
    ensures 1 <= a < W32
  {
    if s.com && s.val % W32 != 0 then s.val % W32 else 1
  }

  /** `bfd_asymbol_value`: of a common symbol it is the size. */
  function ValueOf(s: CommonSym): nat
  {
    if s.com then s.size else s.val
  }

  /** `p` is the least power with 2^p not below the alignment. */
  predicate IsPwr(p: nat, align: nat)
  {
    Pow2(p) >= align && (p > 0 ==> Pow2(p - 1) < align)
  }

  lemma PwrMonotone(p: nat, a: nat, q: nat, b: nat)
    requires IsPwr(p, a) && IsPwr(q, b) && a >= b
    ensures p >= q
  {
    if p < q {
      Pow2Grows(p, q - 1);
    }
  }

  /** For an alignment that is a power of two it is that power. */
  lemma PwrExact(p: nat, k: nat)
    requires IsPwr(p, Pow2(k))
    ensures p == k
  {
    if k < p {
      Pow2Grows(k, p - 1);
    } else if p < k {
      Pow2Grows(p, k - 1);
    }
  }

  /** `elf_get_align_pwr`; above half the range of `unsigned long` the shifted bit would be lost. */
  method AlignPwr(align: nat, bits: nat) returns (rval: nat)
    requires 1 <= align <= Wrap(bits) / 2
    ensures IsPwr(rval, align)
  {
    rval := 0;
    var tst, w := 1, Wrap(bits);
    while tst < align
      invariant tst == Pow2(rval) && (rval > 0 ==> Pow2(rval - 1) < align)
      decreases align - tst
    {
      ModSmall(2 * tst, w);
      tst := (2 * tst) % w;
      rval := rval + 1;
    }
  }

  /** `align_size_compare`: the larger alignment is to come first.  The difference is unsigned and becomes
      an `int`. */
  function ByAlign(): (CommonSym, CommonSym) -> int
  {
    (a, b) => Signed32(AlignOf(b) - AlignOf(a))
  }

  /** The comparison is right exactly if the alignments are less than 2^31 apart. */
  lemma ComparesWhenNear(a: CommonSym, b: CommonSym)
    ensures (ByAlign()(a, b) <= 0 <==> AlignOf(a) >= AlignOf(b))
       <==> -0x8000_0000 <= AlignOf(b) - AlignOf(a) < 0x8000_0000
  {
    var d := AlignOf(b) - AlignOf(a);
    if d < -0x8000_0000 {
      ModUnique(d, W32, -1, d + W32);
    } else if d < 0x8000_0000 {
      SignedSmall(d);
    } else {
      ModSmall(d, W32);
    }
  }

  ghost predicate Descending(s: seq<CommonSym>)
  {
    forall i, j :: 0 <= i < j < |s| ==> AlignOf(s[i]) >= AlignOf(s[j])
  }

  /** Alignments the sort can handle: any powers of two, for example, or any up to 2^31. */
  ghost predicate NearAlignments(s: seq<CommonSym>)
  {
    forall i, j :: 0 <= i < |s| && 0 <= j < |s| ==> AlignOf(s[i]) - AlignOf(s[j]) < 0x8000_0000
  }

  /** The sort at the end of symbol resolution. */
  method SortCommons(a: array<CommonSym>)
    requires NearAlignments(a[..])
    modifies a
    ensures Descending(a[..]) && multiset(a[..]) == old(multiset(a[..]))
  {
    ghost var was := a[..];
    assert a[..a.Length] == was;
    ComparesAll(was);
    Qsort.Qsort(a, a.Length, ByAlign());
    assert a[..a.Length] == a[..];
    Qsort.SameElems(a[..], was);
    forall i, j | 0 <= i < j < a.Length ensures AlignOf(a[i]) >= AlignOf(a[j]) {
      assert ByAlign()(a[..][i], a[..][j]) <= 0;
      assert a[..][i] in was && a[..][j] in was;
    }
  }

  lemma ComparesAll(s: seq<CommonSym>)
    requires NearAlignments(s)
    ensures forall x, y :: x in s && y in s ==> (ByAlign()(x, y) <= 0 <==> AlignOf(x) >= AlignOf(y))
  {
    forall x, y | x in s && y in s ensures ByAlign()(x, y) <= 0 <==> AlignOf(x) >= AlignOf(y) {
      ComparesWhenNear(x, y);
    }
  }

  /** A bound for the space the symbols take. */
  function Need(s: seq<CommonSym>): nat
  {
    if s == [] then 0
    else Need(s[..|s| - 1]) + 2 * AlignOf(s[|s| - 1]) + ValueOf(s[|s| - 1])
  }

  lemma NeedSnoc(s: seq<CommonSym>, i: nat)
    requires i < |s|
    ensures Need(s[..i + 1]) == Need(s[..i]) + 2 * AlignOf(s[i]) + ValueOf(s[i])
  {
    assert s[..i + 1][..i] == s[..i];
  }

  lemma {:induction false} NeedGrows(s: seq<CommonSym>, i: nat, j: nat)
    requires i <= j <= |s|
    ensures Need(s[..i]) <= Need(s[..j])
    decreases j
  {
    if i < j {
      NeedGrows(s, i, j - 1);
      NeedSnoc(s, j - 1);
    }
  }

  lemma StillRoom(s: seq<CommonSym>, i: nat, bits: nat)
    requires i < |s| && Need(s) < Wrap(bits)
    ensures Need(s[..i]) + 2 * AlignOf(s[i]) + ValueOf(s[i]) == Need(s[..i + 1]) < Wrap(bits)
  {
    NeedSnoc(s, i);
    NeedGrows(s, i + 1, |s|);
    assert s[..|s|] == s;
  }

  /** A symbol starts at a multiple of its alignment and ends in front of the next one. */
  ghost predicate Packed(s: seq<CommonSym>, pwrs: seq<nat>, vals: seq<nat>, end: nat)
    requires |s| >= |vals| == |pwrs|
  {
    && (forall i :: 0 <= i < |vals| ==> IsPwr(pwrs[i], AlignOf(s[i])) && Divides(Pow2(pwrs[i]), vals[i]))
    && (forall i, j :: 0 <= i < j < |vals| ==> vals[i] + ValueOf(s[i]) <= vals[j])
    && (forall i :: 0 <= i < |vals| ==> vals[i] + ValueOf(s[i]) <= end)
  }

  lemma PackNext(s: seq<CommonSym>, pwrs: seq<nat>, vals: seq<nat>, end: nat, p: nat, bits: nat)
    requires |pwrs| == |vals| < |s| && Packed(s, pwrs, vals, end) && IsPwr(p, AlignOf(s[|vals|]))
    requires end + 2 * AlignOf(s[|vals|]) < Wrap(bits)
    ensures var v := AlignPower(end, p, bits);
      v < end + 2 * AlignOf(s[|vals|]) && v >= end && Packed(s, pwrs + [p], vals + [v], v + ValueOf(s[|vals|]))
  {
    assert Pow2(p) <= 2 * AlignOf(s[|vals|]);
    AlignPowerIsLeast(end, p, bits);
  }

  /** `make_new_commons`: the offsets, and the alignment and size of the dummy section. */
  method MakeNewCommons(s: seq<CommonSym>, bits: nat) returns (vals: seq<nat>, ghost pwrs: seq<nat>, dummy: Section)
    requires s != [] && Need(s) < Wrap(bits)
    ensures |vals| == |pwrs| == |s| && Packed(s, pwrs, vals, dummy.size)
    ensures dummy == Section(".dummy", true, false, dummy.align, dummy.size, 0, 0)
    ensures IsPwr(dummy.align, AlignOf(s[0])) && dummy.size <= Need(s)
  {
    StillRoom(s, 0, bits);
    var align := AlignPwr(AlignOf(s[0]), bits);
    var val: nat := 0;
    vals, pwrs := [], [];
    for i := 0 to |s|
      invariant |vals| == |pwrs| == i && Packed(s, pwrs, vals, val) && val <= Need(s[..i])
    {
      StillRoom(s, i, bits);
      var p := AlignPwr(AlignOf(s[i]), bits);
      PackNext(s, pwrs, vals, val, p, bits);
      val := AlignPower(val, p, bits);
      vals, pwrs := vals + [val], pwrs + [p];
      val := Advance(val, ValueOf(s[i]), false, bits);
    }
    assert s[..|s|] == s;
    dummy := Section(".dummy", true, false, align, val, 0, 0);
  }

  /** Wherever the layout puts the dummy section, every common symbol gets an address that is a
      multiple of its own alignment, if that is a power of two, and of the next power otherwise. */
  lemma CommonsEndUpAligned(s: seq<CommonSym>, pwrs: seq<nat>, vals: seq<nat>, dummy: Section,
                            lo: nat, hi: nat, zero: bool, bits: nat, i: nat)
    requires i < |s| == |vals| == |pwrs| && Descending(s) && Packed(s, pwrs, vals, dummy.size)
    requires IsPwr(dummy.align, AlignOf(s[0])) && Fits(dummy, lo, hi, zero, bits)
    ensures Divides(Pow2(pwrs[i]), dummy.vma + vals[i])
    ensures forall k: nat :: AlignOf(s[i]) == Pow2(k) ==> pwrs[i] == k
    ensures lo <= dummy.vma + vals[i] && dummy.vma + vals[i] + ValueOf(s[i]) <= hi
  {
    PwrMonotone(dummy.align, AlignOf(s[0]), pwrs[i], AlignOf(s[i]));
    Pow2Divides(pwrs[i], dummy.align);
    DividesTrans(Pow2(pwrs[i]), Pow2(dummy.align), dummy.vma);
    DividesSum(Pow2(pwrs[i]), dummy.vma, vals[i]);
    forall k: nat | AlignOf(s[i]) == Pow2(k) ensures pwrs[i] == k {
      PwrExact(pwrs[i], k);
    }
  }

  // ---- from the symbols to their addresses

  lemma {:induction false} NeedAppend(s: seq<CommonSym>, t: seq<CommonSym>)
    ensures Need(s + t) == Need(s) + Need(t)
  {
    if t == [] {
      assert s + t == s;
    } else {
      var n := |t| - 1;
      assert (s + t)[..|s + t| - 1] == s + t[..n];
      NeedAppend(s, t[..n]);
    }
  }

  lemma NeedRemoved(t: seq<CommonSym>, i: nat)
    requires i < |t|
    ensures Need(t) == Need(t[..i] + t[i + 1..]) + 2 * AlignOf(t[i]) + ValueOf(t[i])
  {
    assert t == t[..i + 1] + t[i + 1..];
    NeedAppend(t[..i + 1], t[i + 1..]);
    NeedSnoc(t, i);
    NeedAppend(t[..i], t[i + 1..]);
  }

  lemma RemoveSame(s: seq<CommonSym>, t: seq<CommonSym>, i: nat)
    requires multiset(s) == multiset(t) && s != [] && i < |t| && t[i] == s[|s| - 1]
    ensures multiset(s[..|s| - 1]) == multiset(t[..i] + t[i + 1..])
  {
    assert s == s[..|s| - 1] + [s[|s| - 1]];
    assert t == t[..i] + [t[i]] + t[i + 1..];
    assert multiset(s[..|s| - 1]) == multiset(s) - multiset{s[|s| - 1]};
    assert multiset(t[..i] + t[i + 1..]) == multiset(t) - multiset{t[i]};
  }

  /** Sorting does not change the space. */
  lemma {:induction false} NeedPermuted(s: seq<CommonSym>, t: seq<CommonSym>)
    requires multiset(s) == multiset(t)
    ensures Need(s) == Need(t)
  {
    if s == [] {
      assert |multiset(t)| == 0;
    } else {
      assert s[|s| - 1] in multiset(t);
      var i :| 0 <= i < |t| && t[i] == s[|s| - 1];
      RemoveSame(s, t, i);
      NeedPermuted(s[..|s| - 1], t[..i] + t[i + 1..]);
      NeedRemoved(t, i);
    }
  }

  /** A new section takes no more room than the symbols need twice. */
  lemma DummyRoom(s: seq<CommonSym>, dummy: Section, bits: nat)
    requires s != [] && IsPwr(dummy.align, AlignOf(s[0])) && dummy.size <= Need(s) && dummy.name == ".dummy"
    ensures Room(dummy, bits) <= 2 * Need(s)
  {
    NeedSnoc(s, 0);
    NeedGrows(s, 1, |s|);
    assert s[..1][..0] == [] && s[..|s|] == s;
    assert Pow2(dummy.align) <= 2 * AlignOf(s[0]);
  }

  lemma SmallPwr(p: nat, align: nat)
    requires IsPwr(p, align) && align <= 0x4000_0000
    ensures p < 31
  {
    Powers();
    assert Pow2(32) == 2 * Pow2(31) == 4 * Pow2(30);
    if p >= 31 {
      Pow2Grows(30, p - 1);
    }
  }

  /** Where the symbols end up: each at a multiple of its alignment, one behind the other, and inside the
      memory from `lo` to `hi`. */
  ghost predicate WellPlaced(s: seq<CommonSym>, addrs: seq<nat>, lo: nat, hi: nat)
  {
    && |addrs| == |s|
    && (forall i, k: nat :: 0 <= i < |s| && AlignOf(s[i]) == Pow2(k) ==> Divides(Pow2(k), addrs[i]))
    && (forall i, j :: 0 <= i < j < |s| ==> addrs[i] + ValueOf(s[i]) <= addrs[j])
    && (forall i :: 0 <= i < |s| ==> lo <= addrs[i] && addrs[i] + ValueOf(s[i]) <= hi)
  }

  function Shifted(vals: seq<nat>, vma: nat): (addrs: seq<nat>)
    ensures |addrs| == |vals| && forall i :: 0 <= i < |vals| ==> addrs[i] == vma + vals[i]
  {
    seq(|vals|, i requires 0 <= i < |vals| => vma + vals[i])
  }

  lemma AllEndUpAligned(s: seq<CommonSym>, pwrs: seq<nat>, vals: seq<nat>, dummy: Section,
                        lo: nat, hi: nat, zero: bool, bits: nat)
    requires s != [] && |s| == |vals| == |pwrs| && Descending(s) && Packed(s, pwrs, vals, dummy.size)
    requires IsPwr(dummy.align, AlignOf(s[0])) && Fits(dummy, lo, hi, zero, bits)
    ensures WellPlaced(s, Shifted(vals, dummy.vma), lo, hi)
  {
    forall i | 0 <= i < |s|
      ensures Divides(Pow2(pwrs[i]), dummy.vma + vals[i])
      ensures forall k: nat :: AlignOf(s[i]) == Pow2(k) ==> pwrs[i] == k
      ensures lo <= dummy.vma + vals[i] && dummy.vma + vals[i] + ValueOf(s[i]) <= hi
    {
      CommonsEndUpAligned(s, pwrs, vals, dummy, lo, hi, zero, bits, i);
    }
  }

  /** In terms of the file: a common symbol lies at a multiple of the alignment in its value and has its size;
      a weak undefined one has the size in its value; and they do not overlap. */
  lemma AddressesFit(s: seq<CommonSym>, addrs: seq<nat>, lo: nat, hi: nat, i: nat, k: nat)
    requires WellPlaced(s, addrs, lo, hi) && i < |s|
    ensures s[i].com && s[i].val == Pow2(k) < 0x1_0000_0000 ==> Divides(s[i].val, addrs[i])
    ensures lo <= addrs[i] && addrs[i] + (if s[i].com then s[i].size else s[i].val) <= hi
    ensures forall j :: i < j < |s| ==> addrs[i] + (if s[i].com then s[i].size else s[i].val) <= addrs[j]
  {
    if s[i].com && s[i].val == Pow2(k) < W32 {
      ModSmall(s[i].val, W32);
      assert AlignOf(s[i]) == Pow2(k);
    }
  }

  /** What memory allocation must give: room inside the address space for each segment. */
  ghost predicate Allocates(alloc: (nat, nat) -> nat, secs: seq<Section>, nsegs: nat, extra: nat, bits: nat)
  {
    forall g: nat, n: nat :: g < nsegs && n <= Reserve(secs, g, bits) + extra ==> ChunkOk(alloc(g, n), n, bits)
  }

  /** The new commons of a loaded file, from the list that symbol resolution leaves to their addresses:
      sorted, packed into a section behind all others, and laid out with these.  Without any size the
      section is not placed. */
  method PlaceCommons(a: array<CommonSym>, others: seq<Section>, segs: array<Segment>, seg: nat,
                      alloc: (nat, nat) -> nat, bits: nat)
    returns (ok: bool, secs: array<Section>, addrs: seq<nat>)
    requires a.Length > 0 && Need(a[..]) < Wrap(bits)
    requires forall i :: 0 <= i < a.Length ==> AlignOf(a[i]) <= 0x4000_0000
    requires seg < segs.Length && SegsOk(others, segs.Length)
    requires forall g :: 0 <= g < segs.Length ==> segs[g].size == 0
    requires Allocates(alloc, others, segs.Length, 2 * Need(a[..]), bits)
    modifies a, segs
    ensures multiset(a[..]) == old(multiset(a[..]))
    ensures ok <==> forall i :: 0 <= i < |others| ==> !Dangerous(others[i])
    ensures ok ==> secs.Length == |others| + 1 && SegsOk(secs[..], segs.Length)
    ensures ok ==> Laid(secs[..], segs[..], EhSection(others), bits)
    ensures ok && (exists i :: 0 <= i < a.Length && ValueOf(a[i]) > 0) ==>
      WellPlaced(a[..], addrs, segs[seg].chunk, segs[seg].chunk + segs[seg].size)
  {
    ghost var pwrs;
    var vals, dummy;
    vals, pwrs, dummy := SortAndPack(a, seg, bits);
    ok, secs := LayOutWith(others, dummy, segs, alloc, old(2 * Need(a[..])), bits);
    addrs := Shifted(vals, if ok then secs[|others|].vma else 0);
    if ok && dummy.size > 0 {
      AllEndUpAligned(a[..], pwrs, vals, secs[|others|], segs[seg].chunk, segs[seg].chunk + segs[seg].size,
                      false, bits);
    }
  }

  /** The section of the new commons. */
  method SortAndPack(a: array<CommonSym>, seg: nat, bits: nat)
    returns (vals: seq<nat>, ghost pwrs: seq<nat>, dummy: Section)
    requires a.Length > 0 && Need(a[..]) < Wrap(bits)
    requires forall i :: 0 <= i < a.Length ==> AlignOf(a[i]) <= 0x4000_0000
    modifies a
    ensures multiset(a[..]) == old(multiset(a[..])) && Descending(a[..])
    ensures |vals| == |pwrs| == a.Length && Packed(a[..], pwrs, vals, dummy.size)
    ensures dummy == Section(".dummy", true, false, dummy.align, dummy.size, seg, 0)
    ensures IsPwr(dummy.align, AlignOf(a[0])) && dummy.align < 31 && Room(dummy, bits) <= old(2 * Need(a[..]))
    ensures dummy.size == 0 ==> forall i :: 0 <= i < a.Length ==> ValueOf(a[i]) == 0
  {
    ghost var was := a[..];
    SortCommons(a);
    ghost var s := a[..];
    NeedPermuted(was, s);
    Qsort.SameElems(s, was);
    assert s[0] in was;
    vals, pwrs, dummy := MakeNewCommons(a[..], bits);
    dummy := dummy.(seg := seg);
    SmallPwr(dummy.align, AlignOf(s[0]));
    DummyRoom(s, dummy, bits);
  }

  /** The layout of all sections and one more. */
  method LayOutWith(others: seq<Section>, dummy: Section, segs: array<Segment>, alloc: (nat, nat) -> nat,
                    ghost extra: nat, bits: nat)
    returns (ok: bool, secs: array<Section>)
    requires SegsOk(others, segs.Length) && dummy.seg < segs.Length && dummy.align < 31 && dummy.name == ".dummy"
    requires forall g :: 0 <= g < segs.Length ==> segs[g].size == 0
    requires Room(dummy, bits) <= extra && Allocates(alloc, others, segs.Length, extra, bits)
    modifies segs
    ensures fresh(secs)
    ensures ok <==> forall i :: 0 <= i < |others| ==> !Dangerous(others[i])
    ensures ok ==> secs.Length == |others| + 1 && SegsOk(secs[..], segs.Length)
    ensures ok ==> Laid(secs[..], segs[..], EhSection(others), bits)
    ensures ok ==> secs[|others|] == dummy.(vma := secs[|others|].vma)
    ensures ok && Takes(dummy) ==> Fits(secs[|others|], segs[dummy.seg].chunk,
                                       segs[dummy.seg].chunk + segs[dummy.seg].size, false, bits)
  {
    ghost var all := others + [dummy];
    secs := new Section[|others| + 1](i requires 0 <= i <= |others| => if i < |others| then others[i] else dummy);
    assert secs[..] == all;
    var chunks := seq(segs.Length, g requires 0 <= g < segs.Length => alloc(g, Reserve(others + [dummy], g, bits)));
    OneMoreSection(others, dummy, bits);
    ok := LayOut(secs, segs, chunks, bits);
    if ok {
      DummyIsLaid(secs[..], others, dummy, segs[..], bits);
    }
  }

  /** The new section is neither dangerous nor an exception frame table, and takes its room. */
  lemma OneMoreSection(others: seq<Section>, dummy: Section, bits: nat)
    requires dummy.name == ".dummy"
    ensures var all := others + [dummy];
      && EhSection(all) == EhSection(others) < |others|
      && (forall g: nat :: Reserve(all, g, bits) <= Reserve(others, g, bits) + Room(dummy, bits))
      && ((forall i :: 0 <= i < |all| ==> !Dangerous(all[i])) <==>
          forall i :: 0 <= i < |others| ==> !Dangerous(others[i]))
  {
    var all := others + [dummy];
    assert all[..|all| - 1] == others && all[|others|] == dummy;
    assert forall i :: 0 <= i < |others| ==> all[i] == others[i];
    EhIsEh(others);
  }

  lemma DummyIsLaid(t: seq<Section>, others: seq<Section>, dummy: Section, segs: seq<Segment>, bits: nat)
    requires SameButVma(t, others + [dummy], |others| + 1) && SegsOk(t, |segs|)
    requires EhSection(others) < |others| && Laid(t, segs, EhSection(others), bits)
    ensures t[|others|] == dummy.(vma := t[|others|].vma)
    ensures Takes(dummy) ==>
      Fits(t[|others|], segs[dummy.seg].chunk, segs[dummy.seg].chunk + segs[dummy.seg].size, false, bits)
  {
    assert (others + [dummy])[|others|] == dummy;
  }
}
