/** Finding the symbols closest to an address: the sorted address index of a table, its bisection,
    and the nearest-neighbour merge over all modules that contain the address. */
module AddrRange {
  import Qsort

  /** A memory segment of a module; without memory its chunk is null. */
  datatype Segment = Segment(chunk: nat, size: nat)

  /** A loaded module: `aindex` holds the addresses of its symbols in ascending order. */
  datatype Module = Module(system: bool, segs: seq<Segment>, aindex: seq<nat>)

  /** An element of the result array: entry `idx` of the address index of module number `mod`. */
  datatype Slot = Empty | Used(mod: nat, idx: nat)

  predicate Ascending(a: seq<nat>)
  {
    forall i, j :: 0 <= i < j < |a| ==> a[i] <= a[j]
  }

  /** Every table has symbols, is indexed, and no address exceeds the greatest pointer `top`. */
  ghost predicate Indexed(mods: seq<Module>, top: nat)
  {
    forall m :: 0 <= m < |mods| ==> IndexOk(mods[m].aindex, top)
  }

  predicate IndexOk(a: seq<nat>, top: nat)
  {
    a != [] && Ascending(a) && forall i :: 0 <= i < |a| ==> a[i] <= top
  }

  // ---- the address index of one table

  /** `_cexp_addrcomp`. */
  function ByAddress(): (nat, nat) -> int
  {
    (x, y) => if x < y then -1 else if x > y then 1 else 0
  }

  /** `cexpIndexSymTbl`: sort the addresses of the symbols. */
  method IndexSymTbl(values: seq<nat>) returns (aindex: seq<nat>)
    ensures Ascending(aindex) && multiset(aindex) == multiset(values)
  {
    var a := new nat[|values|](i requires 0 <= i < |values| => values[i]);
    assert a[..|values|] == values;
    Qsort.Qsort(a, |values|, ByAddress());
    aindex := a[..|values|];
    forall i, j | 0 <= i < j < |aindex| ensures aindex[i] <= aindex[j] {
      assert ByAddress()(aindex[i], aindex[j]) <= 0;
    }
  }

  /** `cexpSymTblLkAddrIdx`: the last entry that is not above the address, or the first entry if
      all are above it. */
  method LkAddrIdx(a: seq<nat>, addr: nat) returns (mid: nat)
    requires a != [] && Ascending(a)
    ensures mid < |a| && (mid > 0 ==> a[mid] <= addr)
    ensures forall i :: mid < i < |a| ==> a[i] > addr
  {
    var lo, hi := 0, |a| - 1;
    while lo < hi
      invariant 0 <= lo <= hi < |a|
      invariant lo > 0 ==> a[lo] <= addr
      invariant forall i :: hi < i < |a| ==> a[i] > addr
    {
      var m := (lo + hi + 1) / 2;
      if addr < a[m] {
        hi := m - 1;
      } else {
        lo := m;
      }
    }
    return lo;
  }

  predicate InSegment(addr: nat, s: Segment)
  {
    s.chunk != 0 && s.chunk <= addr < s.chunk + s.size
  }

  /** Does the address lie in a segment?  The system module is one chunk between its symbols. */
  predicate InModule(addr: nat, m: Module)
    requires m.aindex != []
  {
    || (exists k :: 0 <= k < |m.segs| && InSegment(addr, m.segs[k]))
    || (m.system && m.aindex[0] <= addr <= m.aindex[|m.aindex| - 1])
  }

  /** `addrInModule`. */
  method AddrInModule(addr: nat, m: Module) returns (r: bool)
    requires m.aindex != []
    ensures r == InModule(addr, m)
  {
    for k := 0 to |m.segs|
      invariant forall i :: 0 <= i < k ==> !InSegment(addr, m.segs[i])
    {
      if m.segs[k].chunk != 0 && addr >= m.segs[k].chunk && addr < m.segs[k].chunk + m.segs[k].size {
        return true;
      }
    }
    return m.system && addr >= m.aindex[0] && addr <= m.aindex[|m.aindex| - 1];
  }

  // ---- what the nearest entries are

  predicate Valid(mods: seq<Module>, s: Slot)
  {
    s.Used? && s.mod < |mods| && s.idx < |mods[s.mod].aindex|
  }

  function Gaddr(mods: seq<Module>, s: Slot): (a: nat)
    requires Valid(mods, s)
  {
    mods[s.mod].aindex[s.idx]
  }

  /** How close a slot is to the address from below, or (`up`) from above; unused slots are far. */
  function Rank(mods: seq<Module>, top: nat, up: bool, s: Slot): int
  {
    if !Valid(mods, s) then -1 - top else if up then 0 - Gaddr(mods, s) else Gaddr(mods, s)
  }

  /** `a`, with the closest last, holds the closest of the entries in `e`: no entry that was left
      out is closer than any slot, so none was left out while a slot is unused. */
  ghost predicate Best(mods: seq<Module>, top: nat, up: bool, a: seq<Slot>, e: set<Slot>)
  {
    RankAscending(mods, top, up, a) && Picked(a, e) && NoneCloser(mods, top, up, a, e)
  }

  ghost predicate RankAscending(mods: seq<Module>, top: nat, up: bool, a: seq<Slot>)
  {
    forall i, j :: 0 <= i < j < |a| ==> Rank(mods, top, up, a[i]) <= Rank(mods, top, up, a[j])
  }

  /** The used slots are different entries of `e`. */
  ghost predicate Picked(a: seq<Slot>, e: set<Slot>)
  {
    && (forall i, j :: 0 <= i < j < |a| ==> a[i] == Empty || a[i] != a[j])
    && (forall i :: 0 <= i < |a| ==> a[i] == Empty || a[i] in e)
  }

  ghost predicate NoneCloser(mods: seq<Module>, top: nat, up: bool, a: seq<Slot>, e: set<Slot>)
  {
    a != [] ==> forall x :: x in e ==> x in a || Rank(mods, top, up, x) <= Rank(mods, top, up, a[0])
  }

  /** The array after the entry was moved in behind position `j` and the farthest slot dropped. */
  function Insert(a: seq<Slot>, j: nat, x: Slot): (r: seq<Slot>)
    requires 1 <= j <= |a|
    ensures |r| == |a|
    ensures forall t {:trigger r[t]} :: 0 <= t < |a| ==>
      r[t] == if t < j - 1 then a[t + 1] else if t == j - 1 then x else a[t]
  {
    a[1..j] + [x] + a[j..]
  }

  /** Position `j` is where the entry belongs. */
  ghost predicate Belongs(mods: seq<Module>, top: nat, up: bool, a: seq<Slot>, j: nat, x: Slot)
  {
    && 1 <= j <= |a|
    && (forall i :: 1 <= i < j ==> Rank(mods, top, up, a[i]) < Rank(mods, top, up, x))
    && (j < |a| ==> Rank(mods, top, up, x) <= Rank(mods, top, up, a[j]))
  }

  lemma InsertKeepsBest(mods: seq<Module>, top: nat, up: bool, a: seq<Slot>, e: set<Slot>, j: nat, x: Slot)
    requires Belongs(mods, top, up, a, j, x) && Best(mods, top, up, a, e) && x !in e && x != Empty
    requires Rank(mods, top, up, a[0]) <= Rank(mods, top, up, x)
    ensures Best(mods, top, up, Insert(a, j, x), e + {x})
  {
    InsertSorted(mods, top, up, a, j, x);
    InsertPicked(a, e, j, x);
    InsertMembers(a, j, x);
  }

  lemma InsertPicked(a: seq<Slot>, e: set<Slot>, j: nat, x: Slot)
    requires 1 <= j <= |a| && Picked(a, e) && x !in e && x != Empty
    ensures Picked(Insert(a, j, x), e + {x})
  {
  }

  lemma InsertSorted(mods: seq<Module>, top: nat, up: bool, a: seq<Slot>, j: nat, x: Slot)
    requires Belongs(mods, top, up, a, j, x) && RankAscending(mods, top, up, a)
    requires Rank(mods, top, up, a[0]) <= Rank(mods, top, up, x)
    ensures RankAscending(mods, top, up, Insert(a, j, x))
    ensures Rank(mods, top, up, a[0]) <= Rank(mods, top, up, Insert(a, j, x)[0])
  {
  }

  lemma InsertMembers(a: seq<Slot>, j: nat, x: Slot)
    requires 1 <= j <= |a|
    ensures x in Insert(a, j, x)
    ensures forall y :: y in a ==> y == a[0] || y in Insert(a, j, x)
  {
    var r := Insert(a, j, x);
    assert r[j - 1] == x;
    forall t | 1 <= t < |a| ensures a[t] in r {
      assert if t < j then r[t - 1] == a[t] else r[t] == a[t];
    }
  }

  /** Entries that are not closer than the farthest slot need no slot. */
  lemma FarIsNotNeeded(mods: seq<Module>, top: nat, up: bool, a: seq<Slot>, e: set<Slot>, f: set<Slot>)
    requires Best(mods, top, up, a, e)
    requires a != [] ==> forall x :: x in f ==> Rank(mods, top, up, x) <= Rank(mods, top, up, a[0])
    ensures Best(mods, top, up, a, e + f)
  {
  }

  // ---- the two halves of the array

  ghost predicate SlotsOk(mods: seq<Module>, a: seq<Slot>)
  {
    forall i :: 0 <= i < |a| ==> a[i] == Empty || Valid(mods, a[i])
  }

  function Lower(ar: seq<Slot>, margin: nat): (r: seq<Slot>)
    requires |ar| == 2 * margin + 1
    ensures |r| == margin + 1 && forall t :: 0 <= t <= margin ==> r[t] == ar[t]
  {
    ar[..margin + 1]
  }

  /** The upper half, the closest last. */
  function Upper(ar: seq<Slot>, margin: nat): (r: seq<Slot>)
    requires |ar| == 2 * margin + 1
    ensures |r| == margin && forall t :: 0 <= t < margin ==> r[t] == ar[2 * margin - t]
  {
    seq(margin, t requires 0 <= t < margin => ar[2 * margin - t])
  }

  lemma LowerShifted(a: seq<Slot>, ar: seq<Slot>, margin: nat, p: nat, x: Slot)
    requires |ar| == 2 * margin + 1 && |a| == margin + 1 && 1 <= p <= margin + 1
    requires forall t :: 0 <= t < p - 1 ==> ar[t] == a[t + 1]
    requires forall t :: p <= t <= margin ==> ar[t] == a[t]
    requires ar[p - 1] == x
    ensures Lower(ar, margin) == Insert(a, p, x)
  {
  }

  /** The insertion of the first pass. */
  method PushLow(ar: array<Slot>, margin: nat, mods: seq<Module>, ghost top: nat, x: Slot) returns (ghost p: nat)
    requires ar.Length == 2 * margin + 1 && SlotsOk(mods, ar[..]) && Valid(mods, x)
    modifies ar
    ensures Belongs(mods, top, false, old(Lower(ar[..], margin)), p, x)
    ensures Lower(ar[..], margin) == Insert(old(Lower(ar[..], margin)), p, x) && SlotsOk(mods, ar[..])
    ensures forall t :: margin < t < ar.Length ==> ar[t] == old(ar[t])
  {
    ghost var a := Lower(ar[..], margin);
    var j := ShiftLow(ar, margin, mods, top, x, a);
    ar[j - 1] := x;
    p := j;
    LowerShifted(a, ar[..], margin, p, x);
  }

  /** The shifting loop of the first pass. */
  method ShiftLow(ar: array<Slot>, margin: nat, mods: seq<Module>, ghost top: nat, x: Slot, ghost a: seq<Slot>)
    returns (j: nat)
    requires margin < ar.Length && SlotsOk(mods, a) && Valid(mods, x)
    requires |a| == margin + 1 && forall t :: 0 <= t <= margin ==> ar[t] == a[t]
    modifies ar
    ensures Belongs(mods, top, false, a, j, x)
    ensures forall t :: 0 <= t < j - 1 ==> ar[t] == a[t + 1]
    ensures forall t :: j <= t <= margin ==> ar[t] == a[t]
    ensures forall t :: margin < t < ar.Length ==> ar[t] == old(ar[t])
  {
    j := 1;
    while j <= margin && (ar[j] == Empty || Gaddr(mods, x) > Gaddr(mods, ar[j]))
      invariant 1 <= j <= margin + 1
      invariant forall t :: 0 <= t < j - 1 ==> ar[t] == a[t + 1]
      invariant forall t :: j - 1 <= t <= margin ==> ar[t] == a[t]
      invariant forall t :: margin < t < ar.Length ==> ar[t] == old(ar[t])
      invariant forall i :: 1 <= i < j ==> Rank(mods, top, false, a[i]) < Rank(mods, top, false, x)
    {
      ar[j - 1] := ar[j];
      j := j + 1;
    }
  }

  lemma UpperShifted(a: seq<Slot>, was: seq<Slot>, ar: seq<Slot>, margin: nat, p: nat, x: Slot)
    requires PlacedUp(a, was, ar, margin, p, x)
    ensures Upper(ar, margin) == Insert(a, p, x)
  {
  }

  method PlaceUp(ar: array<Slot>, margin: nat, mods: seq<Module>, ghost top: nat, x: Slot, ghost a: seq<Slot>)
    returns (ghost p: nat)
    requires ar.Length == 2 * margin + 1 && SlotsOk(mods, a) && Valid(mods, x) && Gaddr(mods, x) <= top
    requires |a| == margin && forall t :: margin < t < ar.Length ==> ar[t] == a[ar.Length - 1 - t]
    modifies ar
    ensures if margin == 0 then ar[0] == x
            else PlacedUp(a, old(ar[..]), ar[..], margin, p, x) && Belongs(mods, top, true, a, p, x)
  {
    var j := ShiftUp(ar, margin, mods, top, x, a);
    ar[j + 1] := x;
    p := 2 * margin - j;
  }

  /** The upper half is shifted up to make room for `x`, which is the `p`-th from the end. */
  ghost predicate PlacedUp(a: seq<Slot>, was: seq<Slot>, ar: seq<Slot>, margin: nat, p: nat, x: Slot)
  {
    && |ar| == |was| == 2 * margin + 1 && |a| == margin && 1 <= p <= margin
    && (forall t {:trigger ar[t]} :: 0 <= t <= margin ==> ar[t] == was[t])
    && (forall t {:trigger ar[t]} :: 2 * margin + 1 - p < t <= 2 * margin ==> ar[t] == a[2 * margin + 1 - t])
    && (forall t {:trigger ar[t]} :: margin < t <= 2 * margin - p ==> ar[t] == a[2 * margin - t])
    && ar[2 * margin + 1 - p] == x
  }

  lemma UpperOk(mods: seq<Module>, was: seq<Slot>, ar: seq<Slot>, margin: nat, p: nat, x: Slot)
    requires |was| == 2 * margin + 1 && PlacedUp(Upper(was, margin), was, ar, margin, p, x)
    requires SlotsOk(mods, was) && Valid(mods, x)
    ensures SlotsOk(mods, ar)
  {
    forall t | 0 <= t < |ar| ensures ar[t] == Empty || Valid(mods, ar[t]) {
      assert t <= margin || t == 2 * margin + 1 - p || ar[t] == was[t] || ar[t] == was[t - 1];
    }
  }

  lemma PushedUp(mods: seq<Module>, was: seq<Slot>, ar: seq<Slot>, margin: nat, p: nat, x: Slot)
    requires |ar| == |was| == 2 * margin + 1 && SlotsOk(mods, was) && Valid(mods, x)
    requires if margin == 0 then ar[0] == x else PlacedUp(Upper(was, margin), was, ar, margin, p, x)
    ensures SlotsOk(mods, ar)
    ensures margin > 0 ==> 1 <= p <= margin && Upper(ar, margin) == Insert(Upper(was, margin), p, x)
    ensures margin > 0 ==> Lower(ar, margin) == Lower(was, margin)
  {
    if margin > 0 {
      UpperShifted(Upper(was, margin), was, ar, margin, p, x);
      UpperOk(mods, was, ar, margin, p, x);
    }
  }

  /** The insertion of the second pass; without a margin it meets the slot of the first. */
  method PushUp(ar: array<Slot>, margin: nat, mods: seq<Module>, ghost top: nat, x: Slot) returns (ghost p: nat)
    requires ar.Length == 2 * margin + 1 && SlotsOk(mods, ar[..]) && Valid(mods, x)
    requires Gaddr(mods, x) <= top
    modifies ar
    ensures margin > 0 ==> Belongs(mods, top, true, old(Upper(ar[..], margin)), p, x)
    ensures margin > 0 ==> Upper(ar[..], margin) == Insert(old(Upper(ar[..], margin)), p, x)
    ensures SlotsOk(mods, ar[..])
    ensures margin > 0 ==> Lower(ar[..], margin) == old(Lower(ar[..], margin))
    ensures margin == 0 ==> ar[0] == x
  {
    ghost var was := ar[..];
    p := PlaceUp(ar, margin, mods, top, x, Upper(was, margin));
    PushedUp(mods, was, ar[..], margin, p, x);
  }

  /** The shifting loop of the second pass. */
  method ShiftUp(ar: array<Slot>, margin: nat, mods: seq<Module>, ghost top: nat, x: Slot, ghost a: seq<Slot>)
    returns (j: int)
    requires margin < ar.Length && SlotsOk(mods, a) && Valid(mods, x) && Gaddr(mods, x) <= top
    requires |a| == ar.Length - 1 - margin && forall t :: margin < t < ar.Length ==> ar[t] == a[ar.Length - 1 - t]
    modifies ar
    ensures j == ar.Length - 2 || margin <= j < ar.Length - 2
    ensures a != [] ==> Belongs(mods, top, true, a, ar.Length - 1 - j, x)
    ensures forall t {:trigger ar[t]} :: 0 <= t <= margin ==> ar[t] == old(ar[t])
    ensures forall t :: j + 1 < t < ar.Length ==> ar[t] == a[ar.Length - t]
    ensures forall t :: margin < t <= j ==> ar[t] == a[ar.Length - 1 - t]
  {
    var n := ar.Length;
    j := n - 2;
    while j > margin && (ar[j] == Empty || Gaddr(mods, x) < Gaddr(mods, ar[j]))
      invariant j == n - 2 || margin <= j < n - 2
      invariant forall t :: 0 <= t <= margin ==> ar[t] == old(ar[t])
      invariant forall t :: j + 1 < t < n ==> ar[t] == a[n - t]
      invariant forall t :: margin < t <= j ==> ar[t] == a[n - 1 - t]
      invariant forall i :: 1 <= i < n - 1 - j ==> Rank(mods, top, true, a[i]) < Rank(mods, top, true, x)
    {
      ar[j + 1] := ar[j];
      j := j - 1;
    }
  }

  // ---- one module

  /** The entries a search should consider: below or at the address, or (`up`) above it and not
      among the first `first` of their table. */
  predicate Wanted(mods: seq<Module>, addr: nat, up: bool, first: nat, s: Slot)
  {
    Valid(mods, s) && InModule(addr, mods[s.mod])
    && if up then Gaddr(mods, s) > addr && s.idx >= first else Gaddr(mods, s) <= addr
  }

  /** ... in the first `n` modules. */
  ghost function Entries(mods: seq<Module>, addr: nat, up: bool, first: nat, n: nat): (r: set<Slot>)
    requires n <= |mods|
    ensures forall s :: s in r <==> Wanted(mods, addr, up, first, s) && s.mod < n
  {
    set m, i | 0 <= m < n && 0 <= i < |mods[m].aindex| && Wanted(mods, addr, up, first, Used(m, i)) :: Used(m, i)
  }

  /** `cli` is what the bisection gives. */
  ghost predicate Bisected(a: seq<nat>, addr: nat, cli: nat)
  {
    cli < |a| && (cli > 0 ==> a[cli] <= addr) && forall i :: cli < i < |a| ==> a[i] > addr
  }

  /** A slot that holds an entry above the address. */
  predicate Above(mods: seq<Module>, addr: nat, s: Slot)
  {
    Valid(mods, s) && Gaddr(mods, s) > addr
  }

  ghost predicate LowerIs(mods: seq<Module>, top: nat, margin: nat, addr: nat, n: nat, ar: seq<Slot>)
    requires |ar| == 2 * margin + 1 && n <= |mods|
  {
    Best(mods, top, false, Lower(ar, margin), Entries(mods, addr, false, 0, n))
  }

  lemma BestFinish(mods: seq<Module>, top: nat, up: bool, a: seq<Slot>, e: set<Slot>, all: set<Slot>)
    requires Best(mods, top, up, a, e) && e <= all && a != []
    requires forall x :: x in all && x !in e ==> Rank(mods, top, up, x) <= Rank(mods, top, up, a[0])
    ensures Best(mods, top, up, a, all)
  {
    FarIsNotNeeded(mods, top, up, a, e, all - e);
    assert e + (all - e) == all;
  }

  /** Enter one entry into the lower half. */
  method EnterLow(ar: array<Slot>, margin: nat, mods: seq<Module>, ghost top: nat, x: Slot, ghost e: set<Slot>)
    requires ar.Length == 2 * margin + 1 && SlotsOk(mods, ar[..]) && Valid(mods, x) && x !in e
    requires Best(mods, top, false, Lower(ar[..], margin), e)
    requires Rank(mods, top, false, ar[0]) <= Gaddr(mods, x)
    modifies ar
    ensures SlotsOk(mods, ar[..]) && Best(mods, top, false, Lower(ar[..], margin), e + {x})
    ensures forall t :: margin < t < ar.Length ==> ar[t] == old(ar[t])
  {
    ghost var a := Lower(ar[..], margin);
    ghost var p := PushLow(ar, margin, mods, top, x);
    InsertKeepsBest(mods, top, false, a, e, p, x);
  }

  /** The first pass over a module: from the bisected entry downwards, until no entry can be closer
      than the farthest slot.  A slot above the address, which only the second pass could have put
      there, stops it at once. */
  method LowerPass(ar: array<Slot>, margin: nat, mods: seq<Module>, ghost top: nat, m: nat, cli: nat, addr: nat)
    requires ar.Length == 2 * margin + 1 && Indexed(mods, top) && SlotsOk(mods, ar[..])
    requires m < |mods| && InModule(addr, mods[m]) && Bisected(mods[m].aindex, addr, cli)
    requires Above(mods, addr, ar[0]) || LowerIs(mods, top, margin, addr, m, ar[..])
    modifies ar
    ensures SlotsOk(mods, ar[..])
    ensures if Above(mods, addr, old(ar[0])) then ar[0] == old(ar[0])
            else LowerIs(mods, top, margin, addr, m + 1, ar[..])
    ensures Upper(ar[..], margin) == old(Upper(ar[..], margin))
  {
    ghost var e := Entries(mods, addr, false, 0, m);
    var i: int := cli;
    while i >= 0
      invariant -1 <= i <= cli && SlotsOk(mods, ar[..])
      invariant Seen(mods, addr, m, i, cli, e)
      invariant if Above(mods, addr, old(ar[0])) then ar[0] == old(ar[0])
                else Best(mods, top, false, Lower(ar[..], margin), e)
      invariant forall t :: margin < t < ar.Length ==> ar[t] == old(ar[t])
    {
      var x := Used(m, i);
      var lim := if ar[0] == Empty then 0 else Gaddr(mods, ar[0]);
      if Gaddr(mods, x) > addr || Gaddr(mods, x) < lim {
        break;
      }
      EnterLow(ar, margin, mods, top, x, e);
      SeenMore(mods, addr, m, i, cli, e);
      e := e + {x};
      i := i - 1;
    }
    if !Above(mods, addr, old(ar[0])) {
      LowerDone(mods, top, margin, addr, m, i, cli, e, ar[..]);
    }
  }

  /** `e` holds the lower entries of the modules before `m`, and those of `m` behind `i`. */
  ghost predicate Seen(mods: seq<Module>, addr: nat, m: nat, i: int, cli: nat, e: set<Slot>)
    requires m < |mods|
  {
    forall x :: x in e <==> Wanted(mods, addr, false, 0, x) && (x.mod < m || (x.mod == m && i < x.idx <= cli))
  }

  lemma SeenMore(mods: seq<Module>, addr: nat, m: nat, i: nat, cli: nat, e: set<Slot>)
    requires m < |mods| && Seen(mods, addr, m, i, cli, e) && i <= cli < |mods[m].aindex|
    requires InModule(addr, mods[m]) && mods[m].aindex[i] <= addr
    ensures Seen(mods, addr, m, i - 1, cli, e + {Used(m, i)})
  {
  }

  lemma LowerDone(mods: seq<Module>, top: nat, margin: nat, addr: nat, m: nat, i: int, cli: nat,
                  e: set<Slot>, ar: seq<Slot>)
    requires |ar| == 2 * margin + 1 && Indexed(mods, top) && SlotsOk(mods, ar)
    requires m < |mods| && InModule(addr, mods[m]) && Bisected(mods[m].aindex, addr, cli) && -1 <= i <= cli
    requires Seen(mods, addr, m, i, cli, e) && Best(mods, top, false, Lower(ar, margin), e)
    requires i >= 0 ==> mods[m].aindex[i] > addr || (ar[0] != Empty && mods[m].aindex[i] < Gaddr(mods, ar[0]))
    ensures LowerIs(mods, top, margin, addr, m + 1, ar)
  {
    var all := Entries(mods, addr, false, 0, m + 1);
    assert IndexOk(mods[m].aindex, top);
    forall x | x in all && x !in e ensures Rank(mods, top, false, x) <= Rank(mods, top, false, ar[0]) {
      assert x.mod == m && x.idx <= cli;
      assert mods[m].aindex[x.idx] <= mods[m].aindex[i];
    }
    BestFinish(mods, top, false, Lower(ar, margin), e, all);
  }

  ghost predicate UpperIs(mods: seq<Module>, top: nat, margin: nat, addr: nat, n: nat, ar: seq<Slot>)
    requires |ar| == 2 * margin + 1 && n <= |mods|
  {
    Best(mods, top, true, Upper(ar, margin), Entries(mods, addr, true, 1, n))
  }

  /** Enter one entry into the upper half. */
  method EnterUp(ar: array<Slot>, margin: nat, mods: seq<Module>, ghost top: nat, x: Slot, ghost e: set<Slot>)
    requires ar.Length == 2 * margin + 1 && SlotsOk(mods, ar[..]) && Valid(mods, x) && x !in e
    requires Best(mods, top, true, Upper(ar[..], margin), e)
    requires Gaddr(mods, x) <= top && (margin > 0 ==> Rank(mods, top, true, ar[2 * margin]) <= 0 - Gaddr(mods, x))
    modifies ar
    ensures SlotsOk(mods, ar[..]) && Best(mods, top, true, Upper(ar[..], margin), e + {x})
    ensures margin > 0 ==> Lower(ar[..], margin) == old(Lower(ar[..], margin))
    ensures margin == 0 ==> ar[0] == x
  {
    ghost var a := Upper(ar[..], margin);
    ghost var p := PushUp(ar, margin, mods, top, x);
    if margin > 0 {
      InsertKeepsBest(mods, top, true, a, e, p, x);
    }
  }

  /** `e` holds the upper entries of the modules before `m`, and those of `m` in front of `i`. */
  ghost predicate SeenUp(mods: seq<Module>, addr: nat, m: nat, i: int, e: set<Slot>)
    requires m < |mods|
  {
    forall x :: x in e <==> Wanted(mods, addr, true, 1, x) && (x.mod < m || (x.mod == m && x.idx < i))
  }

  /** Without a margin the second pass meets the only slot: it stops at once if that slot holds an
      entry that is not above the address, and otherwise puts one above it there. */
  ghost predicate OnlySlot(mods: seq<Module>, addr: nat, was: Slot, now: Slot, any: bool)
  {
    if Above(mods, addr, was) || (was == Empty && any) then Above(mods, addr, now) else now == was
  }

  /** What the second pass does to the slots that are not its own, once it has reached entry `i`. */
  ghost predicate RestIs(mods: seq<Module>, margin: nat, addr: nat, cli: nat, i: nat, was: seq<Slot>, now: seq<Slot>)
    requires |was| == |now| == 2 * margin + 1
  {
    if margin > 0 then Lower(now, margin) == Lower(was, margin)
    else OnlySlot(mods, addr, was[0], now[0], i > cli + 1)
         && (Valid(mods, was[0]) && !Above(mods, addr, was[0]) ==> i == cli + 1)
  }

  /** One round of the second pass. */
  method UpperRound(ar: array<Slot>, margin: nat, mods: seq<Module>, top: nat, x: Slot, addr: nat, ghost e: set<Slot>)
    returns (go: bool)
    requires ar.Length == 2 * margin + 1 && SlotsOk(mods, ar[..]) && Valid(mods, x) && x !in e
    requires Best(mods, top, true, Upper(ar[..], margin), e) && addr < Gaddr(mods, x) <= top
    modifies ar
    ensures SlotsOk(mods, ar[..])
    ensures !go ==> ar[..] == old(ar[..])
    ensures go <==> old(ar[2 * margin]) == Empty || Gaddr(mods, x) <= Gaddr(mods, old(ar[2 * margin]))
    ensures go ==> Best(mods, top, true, Upper(ar[..], margin), e + {x})
    ensures margin > 0 ==> Lower(ar[..], margin) == old(Lower(ar[..], margin))
    ensures margin == 0 && go ==> ar[0] == x
  {
    var lim := if ar[2 * margin] == Empty then top else Gaddr(mods, ar[2 * margin]);
    go := !(Gaddr(mods, x) <= addr || Gaddr(mods, x) > lim);
    if go {
      EnterUp(ar, margin, mods, top, x, e);
    }
  }

  /** The second pass over a module: upwards from behind the bisected entry. */
  method UpperPass(ar: array<Slot>, margin: nat, mods: seq<Module>, top: nat, m: nat, cli: nat, addr: nat)
    requires ar.Length == 2 * margin + 1 && Indexed(mods, top) && SlotsOk(mods, ar[..])
    requires m < |mods| && InModule(addr, mods[m]) && Bisected(mods[m].aindex, addr, cli)
    requires UpperIs(mods, top, margin, addr, m, ar[..])
    modifies ar
    ensures SlotsOk(mods, ar[..]) && UpperIs(mods, top, margin, addr, m + 1, ar[..])
    ensures margin > 0 ==> Lower(ar[..], margin) == old(Lower(ar[..], margin))
    ensures margin == 0 ==> OnlySlot(mods, addr, old(ar[..])[0], ar[0], cli + 1 < |mods[m].aindex|)
  {
    ghost var e, was := Entries(mods, addr, true, 1, m), ar[..];
    var i := cli + 1;
    SeenUpInit(mods, addr, m, cli);
    while i < |mods[m].aindex|
      invariant cli < i <= |mods[m].aindex| && SlotsOk(mods, ar[..])
      invariant SeenUp(mods, addr, m, i, e)
      invariant Best(mods, top, true, Upper(ar[..], margin), e)
      invariant RestIs(mods, margin, addr, cli, i, was, ar[..])
    {
      var x := Used(m, i);
      assert IndexOk(mods[m].aindex, top);
      var go := UpperRound(ar, margin, mods, top, x, addr, e);
      if !go {
        break;
      }
      SeenUpMore(mods, addr, m, i, e);
      e := e + {x};
      i := i + 1;
    }
    UpperDone(mods, top, margin, addr, m, i, cli, e, ar[..]);
  }

  lemma SeenUpInit(mods: seq<Module>, addr: nat, m: nat, cli: nat)
    requires m < |mods| && Bisected(mods[m].aindex, addr, cli) && Ascending(mods[m].aindex)
    ensures SeenUp(mods, addr, m, cli + 1, Entries(mods, addr, true, 1, m))
  {
  }

  lemma SeenUpMore(mods: seq<Module>, addr: nat, m: nat, i: nat, e: set<Slot>)
    requires m < |mods| && SeenUp(mods, addr, m, i, e) && 1 <= i < |mods[m].aindex|
    requires InModule(addr, mods[m]) && mods[m].aindex[i] > addr
    ensures SeenUp(mods, addr, m, i + 1, e + {Used(m, i)})
  {
  }

  lemma UpperDone(mods: seq<Module>, top: nat, margin: nat, addr: nat, m: nat, i: nat, cli: nat,
                  e: set<Slot>, ar: seq<Slot>)
    requires |ar| == 2 * margin + 1 && Indexed(mods, top) && SlotsOk(mods, ar)
    requires m < |mods| && InModule(addr, mods[m]) && Bisected(mods[m].aindex, addr, cli)
    requires cli < i <= |mods[m].aindex|
    requires SeenUp(mods, addr, m, i, e) && Best(mods, top, true, Upper(ar, margin), e)
    requires i < |mods[m].aindex| ==>
      ar[2 * margin] != Empty && mods[m].aindex[i] > Gaddr(mods, ar[2 * margin])
    ensures UpperIs(mods, top, margin, addr, m + 1, ar)
  {
    var all := Entries(mods, addr, true, 1, m + 1);
    if margin > 0 {
      assert IndexOk(mods[m].aindex, top);
      forall x | x in all && x !in e ensures Rank(mods, top, true, x) <= Rank(mods, top, true, ar[2 * margin]) {
        assert mods[m].aindex[x.idx] >= mods[m].aindex[i];
      }
      BestFinish(mods, top, true, Upper(ar, margin), e, all);
    }
  }

  // ---- all modules

  predicate Contains(mods: seq<Module>, addr: nat, k: nat)
  {
    k < |mods| && mods[k].aindex != [] && InModule(addr, mods[k])
  }

  /** The address lies in the module, but below its first symbol: the search skips that symbol. */
  predicate Skips(mods: seq<Module>, addr: nat, k: nat)
  {
    Contains(mods, addr, k) && mods[k].aindex[0] > addr
  }

  /** The first containing module that has anything to offer offers an entry above the address. */
  ghost predicate Poisoned(mods: seq<Module>, addr: nat, n: nat)
  {
    exists k :: 0 <= k < n && Skips(mods, addr, k) && |mods[k].aindex| >= 2
                && forall j :: 0 <= j < k && Contains(mods, addr, j) ==> Skips(mods, addr, j)
  }

  /** The array after the first `n` modules. */
  ghost predicate Merged(mods: seq<Module>, top: nat, margin: nat, addr: nat, n: nat, ar: seq<Slot>)
    requires |ar| == 2 * margin + 1 && n <= |mods|
  {
    && SlotsOk(mods, ar) && UpperIs(mods, top, margin, addr, n, ar)
    && if margin == 0 && Poisoned(mods, addr, n) then Above(mods, addr, ar[0])
       else LowerIs(mods, top, margin, addr, n, ar)
  }

  lemma NotAbove(mods: seq<Module>, top: nat, margin: nat, addr: nat, n: nat, ar: seq<Slot>)
    requires |ar| == 2 * margin + 1 && n <= |mods| && LowerIs(mods, top, margin, addr, n, ar)
    ensures !Above(mods, addr, ar[0])
  {
    assert ar[0] == Lower(ar, margin)[0];
  }

  method Visit(ar: array<Slot>, margin: nat, mods: seq<Module>, top: nat, m: nat, addr: nat)
    requires ar.Length == 2 * margin + 1 && Indexed(mods, top) && m < |mods| && Contains(mods, addr, m)
    requires Merged(mods, top, margin, addr, m, ar[..])
    modifies ar
    ensures Merged(mods, top, margin, addr, m + 1, ar[..])
  {
    assert IndexOk(mods[m].aindex, top);
    ghost var was := ar[..];
    var cli := LkAddrIdx(mods[m].aindex, addr);
    LowerPass(ar, margin, mods, top, m, cli, addr);
    ghost var mid := ar[..];
    UpperPass(ar, margin, mods, top, m, cli, addr);
    VisitMerged(mods, top, margin, addr, m, cli, was, mid, ar[..]);
  }

  lemma VisitMerged(mods: seq<Module>, top: nat, margin: nat, addr: nat, m: nat, cli: nat,
                    was: seq<Slot>, mid: seq<Slot>, ar: seq<Slot>)
    requires |was| == |mid| == |ar| == 2 * margin + 1 && Indexed(mods, top) && m < |mods|
    requires Contains(mods, addr, m) && Bisected(mods[m].aindex, addr, cli)
    requires Merged(mods, top, margin, addr, m, was)
    requires if Above(mods, addr, was[0]) then mid[0] == was[0] else LowerIs(mods, top, margin, addr, m + 1, mid)
    requires SlotsOk(mods, ar) && UpperIs(mods, top, margin, addr, m + 1, ar)
    requires margin > 0 ==> Lower(ar, margin) == Lower(mid, margin)
    requires margin == 0 ==> OnlySlot(mods, addr, mid[0], ar[0], cli + 1 < |mods[m].aindex|)
    ensures Merged(mods, top, margin, addr, m + 1, ar)
  {
    if margin > 0 {
      NotAbove(mods, top, margin, addr, m, was);
    } else if Poisoned(mods, addr, m) {
      assert Poisoned(mods, addr, m + 1);
    } else {
      NotAbove(mods, top, margin, addr, m, was);
      NotAbove(mods, top, margin, addr, m + 1, mid);
      OnlySlotFilled(mods, top, addr, m, cli, mid, ar);
    }
  }

  /** Does some module among the first `n` contain the address without skipping? */
  ghost predicate AllSkip(mods: seq<Module>, addr: nat, n: nat)
  {
    forall j :: 0 <= j < n && Contains(mods, addr, j) ==> Skips(mods, addr, j)
  }

  lemma EmptyMeansAllSkip(mods: seq<Module>, top: nat, addr: nat, n: nat, ar: seq<Slot>)
    requires |ar| == 1 && Indexed(mods, top) && n <= |mods| && LowerIs(mods, top, 0, addr, n, ar)
    requires SlotsOk(mods, ar)
    ensures ar[0] == Empty <==> AllSkip(mods, addr, n)
  {
    assert Lower(ar, 0) == [ar[0]];
    if ar[0] == Empty {
      forall j | 0 <= j < n && Contains(mods, addr, j) ensures Skips(mods, addr, j) {
        assert Used(j, 0) in Entries(mods, addr, false, 0, n) <==> !Skips(mods, addr, j);
      }
    } else {
      assert ar[0] in Entries(mods, addr, false, 0, n);
      assert IndexOk(mods[ar[0].mod].aindex, top);
      assert Contains(mods, addr, ar[0].mod) && !Skips(mods, addr, ar[0].mod);
    }
  }

  lemma OnlySlotFilled(mods: seq<Module>, top: nat, addr: nat, m: nat, cli: nat, mid: seq<Slot>, ar: seq<Slot>)
    requires |mid| == |ar| == 1 && Indexed(mods, top) && m < |mods|
    requires Contains(mods, addr, m) && Bisected(mods[m].aindex, addr, cli)
    requires !Poisoned(mods, addr, m) && LowerIs(mods, top, 0, addr, m + 1, mid) && SlotsOk(mods, mid)
    requires !Above(mods, addr, mid[0])
    requires OnlySlot(mods, addr, mid[0], ar[0], cli + 1 < |mods[m].aindex|)
    ensures if Poisoned(mods, addr, m + 1) then Above(mods, addr, ar[0]) else LowerIs(mods, top, 0, addr, m + 1, ar)
  {
    assert IndexOk(mods[m].aindex, top);
    EmptyMeansAllSkip(mods, top, addr, m + 1, mid);
    if mid[0] == Empty && cli + 1 < |mods[m].aindex| {
      assert Skips(mods, addr, m);
      assert Poisoned(mods, addr, m + 1);
    } else {
      assert mid == ar;
      PoisonNeeds(mods, addr, m);
    }
  }

  lemma PoisonNeeds(mods: seq<Module>, addr: nat, m: nat)
    requires m < |mods| && !Poisoned(mods, addr, m)
    ensures Poisoned(mods, addr, m + 1) ==> AllSkip(mods, addr, m + 1) && Skips(mods, addr, m) && |mods[m].aindex| >= 2
  {
  }

  /** `cexpSymLkAddrRange`. */
  method LkAddrRange(mods: seq<Module>, addr: nat, ar: array<Slot>, margin: nat, top: nat)
    requires ar.Length == 2 * margin + 1 && Indexed(mods, top)
    modifies ar
    ensures Merged(mods, top, margin, addr, |mods|, ar[..])
    ensures (forall k :: 0 <= k < |mods| ==> !Skips(mods, addr, k)) ==> Ideal(mods, top, margin, addr, ar[..])
  {
    for i := 0 to ar.Length
      invariant forall t :: 0 <= t < i ==> ar[t] == Empty
    {
      ar[i] := Empty;
    }
    NothingYet(mods, top, margin, addr, ar[..]);
    for m := 0 to |mods|
      invariant Merged(mods, top, margin, addr, m, ar[..])
    {
      assert IndexOk(mods[m].aindex, top);
      var inside := AddrInModule(addr, mods[m]);
      if inside {
        Visit(ar, margin, mods, top, m, addr);
      } else {
        PassedBy(mods, top, margin, addr, m, ar[..]);
      }
    }
    if forall k :: 0 <= k < |mods| ==> !Skips(mods, addr, k) {
      NearestNeighbours(mods, top, margin, addr, ar[..]);
    }
  }

  lemma NothingYet(mods: seq<Module>, top: nat, margin: nat, addr: nat, ar: seq<Slot>)
    requires |ar| == 2 * margin + 1 && forall t :: 0 <= t < |ar| ==> ar[t] == Empty
    ensures Merged(mods, top, margin, addr, 0, ar)
  {
  }

  lemma PassedBy(mods: seq<Module>, top: nat, margin: nat, addr: nat, m: nat, ar: seq<Slot>)
    requires |ar| == 2 * margin + 1 && m < |mods| && !Contains(mods, addr, m)
    requires Merged(mods, top, margin, addr, m, ar)
    ensures Merged(mods, top, margin, addr, m + 1, ar)
  {
    assert Entries(mods, addr, false, 0, m + 1) == Entries(mods, addr, false, 0, m);
    assert Entries(mods, addr, true, 1, m + 1) == Entries(mods, addr, true, 1, m);
  }

  // ---- what the search promises

  /** The closest entries over all containing modules, on both sides of the address. */
  ghost predicate Ideal(mods: seq<Module>, top: nat, margin: nat, addr: nat, ar: seq<Slot>)
    requires |ar| == 2 * margin + 1
  {
    && Best(mods, top, false, Lower(ar, margin), Entries(mods, addr, false, 0, |mods|))
    && Best(mods, top, true, Upper(ar, margin), Entries(mods, addr, true, 0, |mods|))
  }

  /** If the address is not below the first symbol of any module that contains it, the early exits
      lose nothing. */
  lemma NearestNeighbours(mods: seq<Module>, top: nat, margin: nat, addr: nat, ar: seq<Slot>)
    requires Indexed(mods, top) && |ar| == 2 * margin + 1 && Merged(mods, top, margin, addr, |mods|, ar)
    requires forall k :: 0 <= k < |mods| ==> !Skips(mods, addr, k)
    ensures Ideal(mods, top, margin, addr, ar)
  {
    var all, seen := Entries(mods, addr, true, 0, |mods|), Entries(mods, addr, true, 1, |mods|);
    forall x | x in all ensures x in seen {
      if x.idx == 0 {
        assert Skips(mods, addr, x.mod);
      }
    }
    assert all == seen;
  }

  /** The entries above the address that the search looks at, up to the address `f`. */
  ghost function UpTo(mods: seq<Module>, addr: nat, f: nat): set<Slot>
  {
    set x | x in Entries(mods, addr, true, 1, |mods|) && Gaddr(mods, x) <= f
  }

  /** For every address the search is right exactly if the first symbols it skips would not have
      made it into the array: with a margin, if enough other symbols are between them and the
      address; without one, if no skipping module fills the only slot before another module can. */
  lemma RightExactlyWhen(mods: seq<Module>, top: nat, margin: nat, addr: nat, ar: seq<Slot>)
    requires Indexed(mods, top) && |ar| == 2 * margin + 1 && Merged(mods, top, margin, addr, |mods|, ar)
    ensures Ideal(mods, top, margin, addr, ar) <==>
      if margin == 0 then !Poisoned(mods, addr, |mods|)
      else forall k :: 0 <= k < |mods| && Skips(mods, addr, k) ==> margin <= |UpTo(mods, addr, mods[k].aindex[0])|
  {
    if margin == 0 {
      if Poisoned(mods, addr, |mods|) && Ideal(mods, top, margin, addr, ar) {
        NotAbove(mods, top, margin, addr, |mods|, ar);
      }
    } else {
      forall k | 0 <= k < |mods| && Skips(mods, addr, k)
        ensures margin <= |UpTo(mods, addr, mods[k].aindex[0])|
                <==> Rank(mods, top, true, Used(k, 0)) <= Rank(mods, top, true, Upper(ar, margin)[0])
      {
        RoomFor(mods, top, margin, addr, ar, k);
      }
      SkippedOnly(mods, top, margin, addr, ar);
    }
  }

  /** The full collection is served exactly if no skipped entry is closer than the farthest slot. */
  lemma SkippedOnly(mods: seq<Module>, top: nat, margin: nat, addr: nat, ar: seq<Slot>)
    requires Indexed(mods, top) && |ar| == 2 * margin + 1 && Merged(mods, top, margin, addr, |mods|, ar) && margin > 0
    ensures Ideal(mods, top, margin, addr, ar) <==>
      forall k :: 0 <= k < |mods| && Skips(mods, addr, k) ==>
        Rank(mods, top, true, Used(k, 0)) <= Rank(mods, top, true, Upper(ar, margin)[0])
  {
    var all, seen := Entries(mods, addr, true, 0, |mods|), Entries(mods, addr, true, 1, |mods|);
    var a := Upper(ar, margin);
    forall x | x in all && x !in seen ensures Skips(mods, addr, x.mod) && x == Used(x.mod, 0) {
    }
    if Ideal(mods, top, margin, addr, ar) {
      forall k | 0 <= k < |mods| && Skips(mods, addr, k)
        ensures Rank(mods, top, true, Used(k, 0)) <= Rank(mods, top, true, a[0])
      {
        assert Used(k, 0) in all && Used(k, 0) !in seen;
      }
    } else if forall k :: 0 <= k < |mods| && Skips(mods, addr, k) ==>
        Rank(mods, top, true, Used(k, 0)) <= Rank(mods, top, true, a[0]) {
      BestFinish(mods, top, true, a, seen, all);
    }
  }

  lemma {:induction false} SizeOfElems(s: seq<Slot>)
    ensures |Qsort.Elems(s)| <= |s|
    ensures (forall i, j :: 0 <= i < j < |s| ==> s[i] != s[j]) ==> |Qsort.Elems(s)| == |s|
  {
    if s != [] {
      var n := |s| - 1;
      SizeOfElems(s[..n]);
      assert Qsort.Elems(s) == Qsort.Elems(s[..n]) + {s[n]};
    }
  }

  lemma {:induction false} SubsetSize(a: set<Slot>, b: set<Slot>)
    requires a <= b
    ensures |a| <= |b|
  {
    if x :| x in a {
      SubsetSize(a - {x}, b - {x});
    }
  }

  /** A skipped first symbol is no closer than the farthest slot exactly if `margin` others are at
      least as close. */
  lemma RoomFor(mods: seq<Module>, top: nat, margin: nat, addr: nat, ar: seq<Slot>, k: nat)
    requires Indexed(mods, top) && |ar| == 2 * margin + 1 && UpperIs(mods, top, margin, addr, |mods|, ar) && margin > 0
    requires k < |mods| && Skips(mods, addr, k)
    ensures margin <= |UpTo(mods, addr, mods[k].aindex[0])|
       <==> Rank(mods, top, true, Used(k, 0)) <= Rank(mods, top, true, Upper(ar, margin)[0])
  {
    var a, f := Upper(ar, margin), mods[k].aindex[0];
    var near := UpTo(mods, addr, f);
    assert IndexOk(mods[k].aindex, top);
    if Rank(mods, top, true, Used(k, 0)) <= Rank(mods, top, true, a[0]) {
      AllClose(mods, top, a, Entries(mods, addr, true, 1, |mods|), f);
      SizeOfElems(a);
      SubsetSize(Qsort.Elems(a), near);
    } else {
      forall x | x in near ensures x in Qsort.Elems(a[1..]) {
        assert x in a && x != a[0];
        assert a == [a[0]] + a[1..];
      }
      SubsetSize(near, Qsort.Elems(a[1..]));
      SizeOfElems(a[1..]);
    }
  }

  lemma AllClose(mods: seq<Module>, top: nat, a: seq<Slot>, e: set<Slot>, f: nat)
    requires Best(mods, top, true, a, e) && a != [] && f <= top && 0 - f <= Rank(mods, top, true, a[0])
    requires forall x :: x in e ==> Valid(mods, x)
    ensures forall i :: 0 <= i < |a| ==> a[i] in e && Gaddr(mods, a[i]) <= f
    ensures forall i, j :: 0 <= i < j < |a| ==> a[i] != a[j]
  {
    forall i | 0 <= i < |a| ensures a[i] in e && Gaddr(mods, a[i]) <= f {
      assert Rank(mods, top, true, a[0]) <= Rank(mods, top, true, a[i]);
    }
  }

  /** "Collect, sort, slice": the slots hold exactly the addresses at the close end of any sorted
      list of the collection, and are unused beyond its end. */
  lemma CollectSortSlice(mods: seq<Module>, top: nat, up: bool, a: seq<Slot>, e: set<Slot>, sorted: seq<Slot>, t: nat)
    requires Best(mods, top, up, a, e) && t < |a| && forall x :: x in e ==> Valid(mods, x) && Gaddr(mods, x) <= top
    requires RankAscending(mods, top, up, sorted) && Qsort.Elems(sorted) == e
    requires forall i, j :: 0 <= i < j < |sorted| ==> sorted[i] != sorted[j]
    ensures Rank(mods, top, up, a[|a| - 1 - t])
         == if t < |sorted| then Rank(mods, top, up, sorted[|sorted| - 1 - t]) else Rank(mods, top, up, Empty)
  {
    AsClose(mods, top, up, a, e, sorted, t);
    NotCloser(mods, top, up, a, e, sorted, t);
  }

  lemma InTail(mods: seq<Module>, top: nat, up: bool, s: seq<Slot>, t: nat, x: Slot)
    requires RankAscending(mods, top, up, s) && x in s && t <= |s|
    requires t < |s| ==> Rank(mods, top, up, s[|s| - 1 - t]) < Rank(mods, top, up, x)
    ensures x in Qsort.Elems(s[|s| - t..])
  {
    var j :| 0 <= j < |s| && s[j] == x;
    assert j >= |s| - t;
    assert s[|s| - t..][j - (|s| - t)] == x;
  }

  lemma AsClose(mods: seq<Module>, top: nat, up: bool, a: seq<Slot>, e: set<Slot>, sorted: seq<Slot>, t: nat)
    requires Best(mods, top, up, a, e) && t < |a|
    requires RankAscending(mods, top, up, sorted) && Qsort.Elems(sorted) == e
    requires forall i, j :: 0 <= i < j < |sorted| ==> sorted[i] != sorted[j]
    ensures t < |sorted| ==> Rank(mods, top, up, sorted[|sorted| - 1 - t]) <= Rank(mods, top, up, a[|a| - 1 - t])
  {
    if t < |sorted| && Rank(mods, top, up, a[|a| - 1 - t]) < Rank(mods, top, up, sorted[|sorted| - 1 - t]) {
      var c, d := sorted[|sorted| - 1 - t..], a[|a| - t..];
      forall x | x in Qsort.Elems(c) ensures x in Qsort.Elems(d) {
        var i :| 0 <= i < |c| && c[i] == x;
        assert x == sorted[|sorted| - 1 - t + i] && x in Qsort.Elems(sorted);
        InTail(mods, top, up, a, t, x);
      }
      SizeOfElems(c);
      SizeOfElems(d);
      SubsetSize(Qsort.Elems(c), Qsort.Elems(d));
      assert false;
    }
  }

  lemma NotCloser(mods: seq<Module>, top: nat, up: bool, a: seq<Slot>, e: set<Slot>, sorted: seq<Slot>, t: nat)
    requires Best(mods, top, up, a, e) && t < |a| && forall x :: x in e ==> Valid(mods, x) && Gaddr(mods, x) <= top
    requires RankAscending(mods, top, up, sorted) && Qsort.Elems(sorted) == e
    ensures Rank(mods, top, up, a[|a| - 1 - t])
         <= if t < |sorted| then Rank(mods, top, up, sorted[|sorted| - 1 - t]) else Rank(mods, top, up, Empty)
  {
    var u := if t < |sorted| then t else |sorted|;
    var bound := if t < |sorted| then Rank(mods, top, up, sorted[|sorted| - 1 - t]) else Rank(mods, top, up, Empty);
    if bound < Rank(mods, top, up, a[|a| - 1 - t]) {
      var c, d := a[|a| - 1 - t..], sorted[|sorted| - u..];
      CloseTail(mods, top, up, a, e, t);
      forall x | x in Qsort.Elems(c) ensures x in Qsort.Elems(d) {
        InTail(mods, top, up, sorted, u, x);
      }
      SizeOfElems(c);
      SizeOfElems(d);
      SubsetSize(Qsort.Elems(c), Qsort.Elems(d));
      assert false;
    }
  }

  /** Behind a used slot all slots are used, by different entries that are at least as close. */
  lemma CloseTail(mods: seq<Module>, top: nat, up: bool, a: seq<Slot>, e: set<Slot>, t: nat)
    requires Best(mods, top, up, a, e) && t < |a| && forall x :: x in e ==> Valid(mods, x) && Gaddr(mods, x) <= top
    requires Rank(mods, top, up, Empty) < Rank(mods, top, up, a[|a| - 1 - t])
    ensures var c := a[|a| - 1 - t..];
      && (forall i, j :: 0 <= i < j < |c| ==> c[i] != c[j])
      && forall x :: x in c ==> x in e && Rank(mods, top, up, a[|a| - 1 - t]) <= Rank(mods, top, up, x)
  {
    var c := a[|a| - 1 - t..];
    forall i | 0 <= i < |c| ensures c[i] in e && Rank(mods, top, up, a[|a| - 1 - t]) <= Rank(mods, top, up, c[i]) {
      assert c[i] == a[|a| - 1 - t + i];
    }
  }

  /** The module covers the address: a segment with memory does, or it is the system and has symbols on both
      sides. */
  predicate Covers(m: Module, addr: nat)
  {
    || (exists k :: 0 <= k < |m.segs| &&
          m.segs[k].chunk != 0 && m.segs[k].chunk <= addr && addr < m.segs[k].chunk + m.segs[k].size)
    || (m.system && m.aindex != [] && m.aindex[0] <= addr && addr <= m.aindex[|m.aindex| - 1])
  }

  lemma CoversIsContains(mods: seq<Module>, addr: nat, j: nat)
    requires j < |mods| && mods[j].aindex != []
    ensures Covers(mods[j], addr) <==> InModule(addr, mods[j])
  {
    if k :| 0 <= k < |mods[j].segs| && InSegment(addr, mods[j].segs[k]) {
      assert mods[j].segs[k].chunk != 0;
    }
    if k :| 0 <= k < |mods[j].segs| && mods[j].segs[k].chunk != 0 && mods[j].segs[k].chunk <= addr
            && addr < mods[j].segs[k].chunk + mods[j].segs[k].size {
      assert InSegment(addr, mods[j].segs[k]);
    }
  }

  /** An ideal result in addresses: the slots in the middle are as close to the address as any symbol of any
      module that covers it. */
  lemma ClosestInTheMiddle(mods: seq<Module>, top: nat, margin: nat, addr: nat, ar: seq<Slot>, j: nat, i: nat)
    requires Indexed(mods, top) && |ar| == 2 * margin + 1 && Ideal(mods, top, margin, addr, ar)
    requires j < |mods| && i < |mods[j].aindex| && Covers(mods[j], addr)
    ensures mods[j].aindex[i] <= addr ==>
      Valid(mods, ar[margin]) && mods[j].aindex[i] <= mods[ar[margin].mod].aindex[ar[margin].idx] <= addr
    ensures mods[j].aindex[i] > addr && margin > 0 ==>
      && Valid(mods, ar[margin + 1])
      && addr < mods[ar[margin + 1].mod].aindex[ar[margin + 1].idx] <= mods[j].aindex[i]
  {
    CoversIsContains(mods, addr, j);
    assert IndexOk(mods[j].aindex, top);
    if mods[j].aindex[i] <= addr {
      LastIsClosest(mods, top, false, Lower(ar, margin), Entries(mods, addr, false, 0, |mods|), Used(j, i));
    } else if margin > 0 {
      LastIsClosest(mods, top, true, Upper(ar, margin), Entries(mods, addr, true, 0, |mods|), Used(j, i));
    }
  }

  lemma LastIsClosest(mods: seq<Module>, top: nat, up: bool, a: seq<Slot>, e: set<Slot>, x: Slot)
    requires Best(mods, top, up, a, e) && a != [] && x in e && Valid(mods, x) && Gaddr(mods, x) <= top
    ensures a[|a| - 1] in e && Rank(mods, top, up, x) <= Rank(mods, top, up, a[|a| - 1])
  {
    if x in a {
      var i :| 0 <= i < |a| && a[i] == x;
      assert Rank(mods, top, up, a[i]) <= Rank(mods, top, up, a[|a| - 1]);
    } else {
      assert Rank(mods, top, up, a[0]) <= Rank(mods, top, up, a[|a| - 1]);
    }
  }

  /** Every slot in use is a symbol of a module that covers the address, on the right side of it. */
  lemma SlotsAreSymbols(mods: seq<Module>, top: nat, margin: nat, addr: nat, ar: seq<Slot>, t: nat)
    requires Indexed(mods, top) && |ar| == 2 * margin + 1 && Ideal(mods, top, margin, addr, ar)
    requires t <= 2 * margin && ar[t].Used?
    ensures Valid(mods, ar[t]) && Covers(mods[ar[t].mod], addr)
    ensures t <= margin <==> mods[ar[t].mod].aindex[ar[t].idx] <= addr
  {
    if t <= margin {
      assert Lower(ar, margin)[t] == ar[t];
    } else {
      assert Upper(ar, margin)[2 * margin - t] == ar[t];
    }
    CoversIsContains(mods, addr, ar[t].mod);
  }

  /** A concrete miss: the closest symbol above the address is not in the result. */
  lemma FirstSymbolMissed(ar: seq<Slot>)
    requires |ar| == 3 && Merged([Module(false, [Segment(10, 90)], [50, 60])], 100, 1, 20, 1, ar)
    ensures !Ideal([Module(false, [Segment(10, 90)], [50, 60])], 100, 1, 20, ar)
  {
    var mods := [Module(false, [Segment(10, 90)], [50, 60])];
    assert InSegment(20, mods[0].segs[0]);
    assert Skips(mods, 20, 0);
    RightExactlyWhen(mods, 100, 1, 20, ar);
    assert UpTo(mods, 20, 50) == {};
  }

  /** Without a margin, a module that skips its first symbol takes the only slot for one above the address,
      and the entry below the address of a later module finds no room. */
  lemma OnlySlotTaken(ar: seq<Slot>)
    requires |ar| == 1
    requires Merged([Module(false, [Segment(10, 90)], [50, 60]), Module(true, [], [15, 80])], 100, 0, 20, 2, ar)
    ensures !Ideal([Module(false, [Segment(10, 90)], [50, 60]), Module(true, [], [15, 80])], 100, 0, 20, ar)
  {
    var mods := [Module(false, [Segment(10, 90)], [50, 60]), Module(true, [], [15, 80])];
    assert InSegment(20, mods[0].segs[0]);
    assert Skips(mods, 20, 0) && Poisoned(mods, 20, 2);
    RightExactlyWhen(mods, 100, 0, 20, ar);
  }
}
