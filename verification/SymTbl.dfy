/** One module's symbol table: built from the kept symbols, sorted and stripped of duplicates in
    place, and searched by name. */
module SymTbl {
  import opened SymNames
  import Qsort

  datatype Sym = Sym(name: Name, value: nat, size: nat, sect: bool, weak: bool)

  /** "+%2W", the invalid name that ends the duplicate scan. */
  const MARKER: Name := [43, 37, 50, 87]

  predicate PlainNames(s: seq<Sym>)
  {
    forall i :: 0 <= i < |s| ==> Plain(s[i].name)
  }

  ghost predicate Ascending(s: seq<Sym>)
  {
    forall i, j :: 0 <= i < j < |s| ==> NameComp(s[i].name, s[j].name) < 0
  }

  ghost predicate WeaklyAscending(s: seq<Sym>)
  {
    forall i, j :: 0 <= i < j < |s| ==> NameComp(s[i].name, s[j].name) <= 0
  }

  ghost function Names(s: seq<Sym>): set<Name>
  {
    set i | 0 <= i < |s| :: s[i].name
  }

  /** The order the table is sorted by. */
  function BySymName(): (Sym, Sym) -> int
  {
    (a: Sym, b: Sym) => NameComp(a.name, b.name)
  }

  lemma NameOrderConsistent(elems: set<Sym>)
    requires forall x :: x in elems ==> Plain(x.name)
    ensures Qsort.Consistent(BySymName(), elems)
  {
    var cmp := BySymName();
    forall x, y | x in elems && y in elems ensures cmp(x, y) <= 0 || cmp(y, x) <= 0 {
      PlainAntisymmetric(x.name, y.name);
    }
    forall x, y, z | x in elems && y in elems && z in elems && cmp(x, y) <= 0 && cmp(y, z) <= 0
      ensures cmp(x, z) <= 0
    {
      PlainTransitive(x.name, y.name, z.name);
    }
  }

  // ---- what the in-place duplicate scan leaves behind

  /** The first symbol of every run of equal names. */
  function Dedup(s: seq<Sym>): seq<Sym>
  {
    if s == [] then []
    else
      var d := Dedup(s[..|s| - 1]);
      var x := s[|s| - 1];
      if d != [] && d[|d| - 1].name == x.name then d else d + [x]
  }

  lemma {:induction false} DedupLast(s: seq<Sym>)
    requires s != []
    ensures Dedup(s) != [] && Dedup(s)[|Dedup(s)| - 1].name == s[|s| - 1].name
  {
    if |s| > 1 {
      DedupLast(s[..|s| - 1]);
    }
  }

  lemma {:induction false} DedupSubset(s: seq<Sym>)
    ensures forall x :: x in Dedup(s) ==> x in s
  {
    if s != [] {
      DedupSubset(s[..|s| - 1]);
      assert s == s[..|s| - 1] + [s[|s| - 1]];
    }
  }

  lemma {:induction false} DedupNames(s: seq<Sym>)
    ensures Names(Dedup(s)) == Names(s)
  {
    if s != [] {
      var t, x := s[..|s| - 1], s[|s| - 1];
      DedupNames(t);
      NamesSnoc(t, x);
      assert s == t + [x];
      NamesSnoc(Dedup(t), x);
      var d := Dedup(t);
      if d != [] && d[|d| - 1].name == x.name {
        assert x.name in Names(d);
      }
    }
  }

  lemma NamesSnoc(s: seq<Sym>, x: Sym)
    ensures Names(s + [x]) == Names(s) + {x.name}
  {
    var t := s + [x];
    assert t[|s|] == x;
    forall n | n in Names(s) ensures n in Names(t) {
      var i :| 0 <= i < |s| && s[i].name == n;
      assert t[i].name == n;
    }
  }

  lemma {:induction false} DedupAscending(s: seq<Sym>)
    requires PlainNames(s) && WeaklyAscending(s)
    ensures Ascending(Dedup(s))
  {
    if s != [] {
      var t, x := s[..|s| - 1], s[|s| - 1];
      var d := Dedup(t);
      DedupAscending(t);
      DedupSubset(t);
      if d != [] && d[|d| - 1].name != x.name {
        forall i | 0 <= i < |d| ensures NameComp(d[i].name, x.name) < 0 {
          assert d[i] in t && d[|d| - 1] in t;
          assert NameComp(d[|d| - 1].name, x.name) <= 0;
          BelowNext(d[i], d[|d| - 1], x);
        }
      }
    }
  }

  lemma BelowNext(y: Sym, z: Sym, x: Sym)
    requires Plain(x.name) && Plain(y.name) && Plain(z.name)
    requires NameComp(y.name, z.name) < 0 || y == z
    requires NameComp(z.name, x.name) <= 0 && z.name != x.name
    ensures NameComp(y.name, x.name) < 0
  {
    PlainAntisymmetric(z.name, x.name);
    if y != z {
      PlainTransitive(y.name, z.name, x.name);
    }
  }

  /** Does the greatest name of a sorted table occur more than once? */
  predicate LastRepeats(s: seq<Sym>)
  {
    |s| >= 2 && s[|s| - 2].name == s[|s| - 1].name
  }

  /** What the scan leaves, including the marker it copies when its last run is longer than one. */
  function Scanned(s: seq<Sym>, spare: Sym): seq<Sym>
  {
    Dedup(s) + (if LastRepeats(s) then [spare.(name := MARKER)] else [])
  }

  lemma {:induction false} DedupEnd(s: seq<Sym>, fr: nat)
    requires 0 < fr < |s|
    ensures s[fr].name == s[fr - 1].name ==> Dedup(s[..fr + 1]) == Dedup(s[..fr])
    ensures s[fr].name != s[fr - 1].name ==> Dedup(s[..fr + 1]) == Dedup(s[..fr]) + [s[fr]]
    ensures Dedup(s[..fr]) != [] && Dedup(s[..fr])[|Dedup(s[..fr])| - 1].name == s[fr - 1].name
  {
    assert s[..fr + 1][..fr] == s[..fr];
    DedupLast(s[..fr]);
  }

  lemma SortedPlain(was: seq<Sym>, s: seq<Sym>)
    requires multiset(was) == multiset(s) && PlainNames(was) && Qsort.Sorted(BySymName(), s)
    requires forall i :: 0 <= i < |was| ==> was[i].name != MARKER
    ensures |s| == |was| && PlainNames(s) && WeaklyAscending(s)
    ensures forall i :: 0 <= i < |s| ==> s[i].name != MARKER
  {
    assert |multiset(was)| == |multiset(s)|;
    Qsort.SameElems(was, s);
    forall i | 0 <= i < |s| ensures Plain(s[i].name) && s[i].name != MARKER {
      assert s[i] in was;
    }
    forall i, j | 0 <= i < j < |s| ensures NameComp(s[i].name, s[j].name) <= 0 {
      assert BySymName()(s[i], s[j]) <= 0;
    }
  }

  /** `cexpSortSymTbl`: the table has one spare slot behind its `n` entries. */
  method SortSymTbl(a: array<Sym>, n: nat) returns (nentries: nat, ghost s: seq<Sym>)
    requires a.Length == n + 1 && PlainNames(a[..n])
    requires forall i :: 0 <= i < n ==> a[i].name != MARKER
    modifies a
    ensures multiset(s) == multiset(old(a[..n])) && PlainNames(s) && WeaklyAscending(s)
    ensures nentries <= n && a[..nentries] == Scanned(s, old(a[n]))
  {
    ghost var spare := a[n];
    ghost var was := a[..n];
    if n == 0 {
      return 0, was;
    }
    NameOrderConsistent(Qsort.Elems(a[..n]));
    Qsort.Qsort(a, n, BySymName());
    s := a[..n];
    assert a[n] == a[n..][0] == spare;
    SortedPlain(was, s);
    var oldName := a[n].name;
    a[n] := a[n].(name := MARKER);
    nentries := Scan(a, s);
    a[n] := a[n].(name := oldName);
  }

  /** The table during the scan: slots 0..to hold what is kept of s[..fr], the rest is untouched. */
  ghost predicate InScan(t: seq<Sym>, s: seq<Sym>, to: nat, fr: nat)
  {
    && |t| == |s| + 1 && to < fr <= |s|
    && t[..to + 1] == Dedup(s[..fr])
    && t[fr..|s|] == s[fr..]
    && t[|s|].name == MARKER
  }

  lemma CompareInScan(t: seq<Sym>, s: seq<Sym>, to: nat, fr: nat)
    requires InScan(t, s, to, fr) && PlainNames(s)
    requires forall i :: 0 <= i < |s| ==> s[i].name != MARKER
    ensures NameComp(t[to].name, t[fr].name) == 0 <==> fr < |s| && s[fr].name == s[fr - 1].name
    ensures CString(t[to].name) && CString(t[fr].name)
  {
    DedupLast(s[..fr]);
    assert t[to] == t[..to + 1][to];
    assert t[to].name == s[fr - 1].name;
    assert fr < |s| ==> t[fr] == t[fr..|s|][0] == s[fr];
    PlainAntisymmetric(t[to].name, t[fr].name);
  }

  lemma SkipOne(t: seq<Sym>, s: seq<Sym>, to: nat, fr: nat)
    requires InScan(t, s, to, fr) && fr < |s| && s[fr].name == s[fr - 1].name
    ensures InScan(t, s, to, fr + 1)
    ensures fr + 1 == |s| ==> LastRepeats(s)
  {
    DedupEnd(s, fr);
    assert t[fr + 1..|s|] == t[fr..|s|][1..];
  }

  lemma KeepOne(t: seq<Sym>, s: seq<Sym>, to: nat, fr: nat)
    requires InScan(t, s, to, fr) && fr < |s| && s[fr].name != s[fr - 1].name
    ensures InScan(t[to + 1 := t[fr]], s, to + 1, fr + 1)
    ensures fr + 1 == |s| ==> !LastRepeats(s)
  {
    DedupEnd(s, fr);
    assert t[fr] == t[fr..|s|][0] == s[fr];
    var t' := t[to + 1 := t[fr]];
    assert t'[..to + 2] == t[..to + 1] + [s[fr]];
    assert t'[fr + 1..|s|] == t[fr..|s|][1..];
  }

  /** The scan at the head of its loop: still under way, or past the marker, which it copied. */
  ghost predicate Scanning(t: seq<Sym>, s: seq<Sym>, to: nat, fr: nat)
  {
    && |t| == |s| + 1 && to < fr <= |s| + 1 && to < |s|
    && if fr <= |s| then InScan(t, s, to, fr) && (fr == |s| ==> !LastRepeats(s))
       else LastRepeats(s) && t[..to + 1] == Dedup(s) + [t[|s|]]
  }

  lemma ScanRound(t: seq<Sym>, s: seq<Sym>, to: nat, fr: nat)
    requires InScan(t, s, to, fr)
    requires if fr < |s| then s[fr].name != s[fr - 1].name else LastRepeats(s)
    ensures to + 1 < |t| && t[to + 1 := t[fr]][|s|] == t[|s|]
    ensures Scanning(t[to + 1 := t[fr]], s, to + 1, fr + 1)
  {
    if fr < |s| {
      KeepOne(t, s, to, fr);
    } else {
      assert s[..fr] == s;
      assert t[to + 1 := t[fr]][..to + 2] == t[..to + 1] + [t[fr]];
      DedupIsShorter(s);
    }
  }

  lemma {:induction false} DedupShort(s: seq<Sym>)
    ensures |Dedup(s)| <= |s|
  {
    if s != [] {
      DedupShort(s[..|s| - 1]);
    }
  }

  lemma DedupIsShorter(s: seq<Sym>)
    requires LastRepeats(s)
    ensures |Dedup(s)| < |s|
  {
    var t := s[..|s| - 1];
    DedupLast(t);
    DedupShort(t);
  }

  lemma ScanDone(t: seq<Sym>, s: seq<Sym>, to: nat, fr: nat)
    requires Scanning(t, s, to, fr) && fr >= |s|
    ensures t[..to + 1] == Dedup(s) + if LastRepeats(s) then [t[|s|]] else []
  {
    assert s[..|s|] == s;
  }

  lemma ScanStart(t: seq<Sym>, s: seq<Sym>)
    requires |t| == |s| + 1 > 1 && t[..|s|] == s && t[|s|].name == MARKER
    ensures Scanning(t, s, 0, 1)
  {
    assert s[..1] == [s[0]] == t[..1] && s[..1][..0] == [];
    assert Dedup(s[..1]) == [s[0]];
    assert t[1..|s|] == s[1..];
  }

  /** The first symbol of the next run, or the marker, moves up behind the ones that are kept. */
  method CopyTo(a: array<Sym>, to: nat, fr: nat, ghost s: seq<Sym>)
    requires to > 0 && InScan(a[..], s, to - 1, fr)
    requires if fr < |s| then s[fr].name != s[fr - 1].name else LastRepeats(s)
    modifies a
    ensures Scanning(a[..], s, to, fr + 1) && a[|s|] == old(a[|s|])
  {
    ghost var t := a[..];
    ScanRound(t, s, to - 1, fr);
    a[to] := a[fr];
    assert a[..] == t[to := t[fr]];
  }

  /** The inner loop of the scan: step over the symbols named like the last kept one. */
  method SkipRun(a: array<Sym>, to: nat, fr0: nat, ghost s: seq<Sym>) returns (fr: nat)
    requires InScan(a[..], s, to, fr0) && PlainNames(s) && fr0 < |s|
    requires forall i :: 0 <= i < |s| ==> s[i].name != MARKER
    ensures fr0 <= fr && InScan(a[..], s, to, fr)
    ensures fr < |s| ==> s[fr].name != s[fr - 1].name
    ensures fr == |s| ==> LastRepeats(s)
  {
    fr := fr0;
    CompareInScan(a[..], s, to, fr);
    var c := NameCompare(a[to].name, a[fr].name);
    while c == 0
      invariant fr0 <= fr && InScan(a[..], s, to, fr)
      invariant c == 0 <==> fr < |s| && s[fr].name == s[fr - 1].name
      invariant fr == |s| ==> LastRepeats(s)
      decreases |s| - fr
    {
      SkipOne(a[..], s, to, fr);
      fr := fr + 1;
      CompareInScan(a[..], s, to, fr);
      c := NameCompare(a[to].name, a[fr].name);
    }
  }

  /** The body of the outer loop. */
  method NextRun(a: array<Sym>, to: nat, fr: nat, ghost s: seq<Sym>) returns (to': nat, fr': nat)
    requires Scanning(a[..], s, to, fr) && fr < |s|
    requires PlainNames(s) && forall i :: 0 <= i < |s| ==> s[i].name != MARKER
    modifies a
    ensures fr < fr' && Scanning(a[..], s, to', fr') && a[|s|] == old(a[|s|])
  {
    fr' := SkipRun(a, to, fr, s);
    to' := to + 1;
    CopyTo(a, to', fr', s);
    fr' := fr' + 1;
  }

  /** The outer loop of the scan. */
  method ScanRuns(a: array<Sym>, ghost s: seq<Sym>) returns (nentries: nat, ghost end: nat)
    requires a.Length == |s| + 1 > 1 && Scanning(a[..], s, 0, 1)
    requires PlainNames(s) && forall i :: 0 <= i < |s| ==> s[i].name != MARKER
    modifies a
    ensures nentries > 0 && end >= |s| && Scanning(a[..], s, nentries - 1, end) && a[|s|] == old(a[|s|])
  {
    var fr, to := 1, 0;
    while fr < a.Length - 1
      invariant Scanning(a[..], s, to, fr) && a[|s|] == old(a[|s|])
    {
      to, fr := NextRun(a, to, fr, s);
    }
    return to + 1, fr;
  }

  /** The duplicate scan of `cexpSortSymTbl`, with the marker already in the spare slot. */
  method Scan(a: array<Sym>, ghost s: seq<Sym>) returns (nentries: nat)
    requires a.Length == |s| + 1 > 1 && a[..|s|] == s && a[|s|].name == MARKER
    requires PlainNames(s) && forall i :: 0 <= i < |s| ==> s[i].name != MARKER
    modifies a
    ensures nentries <= |s| && a[..nentries] == Dedup(s) + (if LastRepeats(s) then [a[|s|]] else [])
    ensures a[|s|] == old(a[|s|])
  {
    ScanStart(a[..], s);
    ghost var fr;
    nentries, fr := ScanRuns(a, s);
    ScanDone(a[..], s, nentries - 1, fr);
    assert a[..nentries] == a[..][..nentries];
  }

  // ---- when the scan gives the table its users expect

  /** How many symbols carry the name. */
  function CountName(s: seq<Sym>, n: Name): nat
  {
    if s == [] then 0 else (if s[0].name == n then 1 else 0) + CountName(s[1..], n)
  }

  lemma {:induction false} CountAppend(s: seq<Sym>, t: seq<Sym>, n: Name)
    ensures CountName(s + t, n) == CountName(s, n) + CountName(t, n)
  {
    if s == [] {
      assert s + t == t;
    } else {
      assert (s + t)[1..] == s[1..] + t;
      CountAppend(s[1..], t, n);
    }
  }

  lemma {:induction false} CountPermuted(s: seq<Sym>, t: seq<Sym>, n: Name)
    requires multiset(s) == multiset(t)
    ensures CountName(s, n) == CountName(t, n)
  {
    if s == [] {
      assert |multiset(t)| == 0;
    } else {
      assert s[0] in multiset(t);
      var i :| 0 <= i < |t| && t[i] == s[0];
      var u := t[..i] + t[i + 1..];
      assert t == t[..i] + [t[i]] + t[i + 1..];
      RemoveSame(s, t, i);
      CountPermuted(s[1..], u, n);
      CountAppend(t[..i], t[i + 1..], n);
      CountAppend(t[..i] + [t[i]], t[i + 1..], n);
      CountAppend(t[..i], [t[i]], n);
    }
  }

  lemma RemoveSame(s: seq<Sym>, t: seq<Sym>, i: nat)
    requires multiset(s) == multiset(t) && s != [] && i < |t| && t[i] == s[0]
    ensures multiset(s[1..]) == multiset(t[..i] + t[i + 1..])
  {
    assert s == [s[0]] + s[1..];
    assert t == t[..i] + [t[i]] + t[i + 1..];
    assert multiset(s[1..]) == multiset(s) - multiset{s[0]};
    assert multiset(t[..i] + t[i + 1..]) == multiset(t) - multiset{s[0]};
  }

  lemma {:induction false} CountNone(s: seq<Sym>, n: Name)
    requires forall i :: 0 <= i < |s| ==> s[i].name != n
    ensures CountName(s, n) == 0
  {
    if s != [] {
      CountNone(s[1..], n);
    }
  }

  lemma SplitLastTwo(s: seq<Sym>, n: Name)
    requires |s| >= 2
    ensures CountName(s, n) == CountName(s[..|s| - 2], n)
                               + (if s[|s| - 2].name == n then 1 else 0) + (if s[|s| - 1].name == n then 1 else 0)
  {
    var p, q := [s[|s| - 2]], [s[|s| - 1]];
    assert s == (s[..|s| - 2] + p) + q;
    CountAppend(s[..|s| - 2] + p, q, n);
    CountAppend(s[..|s| - 2], p, n);
    assert q[1..] == [] && p[1..] == [];
  }

  /** The last run of a sorted table is the run of its greatest name. */
  lemma LastRunIsGreatest(s: seq<Sym>)
    requires s != [] && PlainNames(s) && WeaklyAscending(s)
    ensures LastRepeats(s) <==> CountName(s, s[|s| - 1].name) >= 2
  {
    var g := s[|s| - 1].name;
    if |s| == 1 {
      assert s[1..] == [];
    } else {
      SplitLastTwo(s, g);
      if s[|s| - 2].name != g {
        var t := s[..|s| - 2];
        forall i | 0 <= i < |t| ensures t[i].name != g {
          BelowLast(s, i);
        }
        CountNone(t, g);
      }
    }
  }

  lemma BelowLast(s: seq<Sym>, i: nat)
    requires PlainNames(s) && WeaklyAscending(s) && i < |s| - 2
    requires s[|s| - 2].name != s[|s| - 1].name
    ensures s[i].name != s[|s| - 1].name
  {
    PlainAntisymmetric(s[|s| - 2].name, s[|s| - 1].name);
    PlainTransitive(s[i].name, s[|s| - 2].name, s[|s| - 1].name);
    PlainAntisymmetric(s[i].name, s[|s| - 1].name);
  }

  predicate IsGreatest(s: seq<Sym>, g: Name)
  {
    (exists i :: 0 <= i < |s| && s[i].name == g) && forall i :: 0 <= i < |s| ==> NameComp(s[i].name, g) <= 0
  }

  lemma GreatestIsLast(was: seq<Sym>, s: seq<Sym>, g: Name)
    requires multiset(was) == multiset(s) && PlainNames(s) && WeaklyAscending(s) && IsGreatest(was, g)
    ensures s != [] && s[|s| - 1].name == g
  {
    Qsort.SameElems(was, s);
    var i :| 0 <= i < |was| && was[i].name == g;
    assert was[i] in s;
    var k :| 0 <= k < |s| && s[k] == was[i];
    assert s[|s| - 1] in was;
    if k < |s| - 1 {
      assert NameComp(s[k].name, s[|s| - 1].name) <= 0;
      PlainAntisymmetric(s[k].name, s[|s| - 1].name);
    }
  }

  /** A sorted table keeps the set of names it was given exactly when the greatest name occurs
      once; it is then strictly ascending, one entry per name, each an entry of the input. */
  lemma SortKeepsNames(was: seq<Sym>, s: seq<Sym>, spare: Sym, g: Name)
    requires multiset(was) == multiset(s) && PlainNames(s) && WeaklyAscending(s) && IsGreatest(was, g)
    requires forall i :: 0 <= i < |s| ==> s[i].name != MARKER
    ensures Names(Scanned(s, spare)) == Names(was) <==> CountName(was, g) == 1
    ensures CountName(was, g) == 1 ==>
      Ascending(Scanned(s, spare)) && forall x :: x in Scanned(s, spare) ==> x in was
  {
    GreatestIsLast(was, s, g);
    CountPermuted(was, s, g);
    LastRunIsGreatest(s);
    SplitOffLast(s);
    DedupNames(s);
    DedupAscending(s);
    DedupSubset(s);
    Qsort.SameElems(was, s);
    SameNames(was, s);
    if LastRepeats(s) {
      var r := Scanned(s, spare);
      NamesSnoc(Dedup(s), spare.(name := MARKER));
      assert MARKER in Names(r) && MARKER !in Names(s);
    } else {
      assert Scanned(s, spare) == Dedup(s);
    }
  }

  /** Two symbols of one name leave one of them and the marker. */
  lemma EqualNamesLeaveMarker(x: Sym, y: Sym, spare: Sym)
    requires x.name == y.name != MARKER
    ensures Scanned([x, y], spare) == [x, spare.(name := MARKER)]
    ensures Names(Scanned([x, y], spare)) != Names([x, y])
  {
    var s := [x, y];
    assert s[..1] == [x] && s[..1][..0] == [];
    assert Dedup(s[..1]) == [x] && Dedup(s) == [x];
    var r := Scanned(s, spare);
    assert r[1].name == MARKER && MARKER in Names(r);
  }

  lemma SplitOffLast(s: seq<Sym>)
    requires s != []
    ensures CountName(s, s[|s| - 1].name) >= 1
  {
    var q := [s[|s| - 1]];
    assert s == s[..|s| - 1] + q;
    CountAppend(s[..|s| - 1], q, s[|s| - 1].name);
    assert q[1..] == [];
  }

  lemma SameNames(s: seq<Sym>, t: seq<Sym>)
    requires forall x :: x in s <==> x in t
    ensures Names(s) == Names(t)
  {
    forall n ensures n in Names(s) <==> n in Names(t) {
      if n in Names(s) {
        var i :| 0 <= i < |s| && s[i].name == n;
        assert s[i] in t;
      }
      if n in Names(t) {
        var i :| 0 <= i < |t| && t[i].name == n;
        assert t[i] in s;
      }
    }
  }

  // ---- lookup

  datatype Found = Missing | At(index: nat)

  /** Linear scan for a name. */
  function Find(t: seq<Sym>, n: Name): (r: Found)
    ensures r.Missing? <==> forall i :: 0 <= i < |t| ==> t[i].name != n
    ensures r.At? ==> r.index < |t| && t[r.index].name == n && forall i :: 0 <= i < r.index ==> t[i].name != n
  {
    if t == [] then Missing
    else if t[0].name == n then At(0)
    else
      match Find(t[1..], n)
      case Missing =>
        assert forall i :: 1 <= i < |t| ==> t[i] == t[1..][i - 1];
        Missing
      case At(i) => At(i + 1)
  }

  /** `cexpSymTblLookup`: bisect by name; on a sorted table it agrees with the linear scan. */
  method Lookup(t: seq<Sym>, n: Name) returns (r: Found)
    requires PlainNames(t) && Ascending(t) && Plain(n)
    ensures r == Find(t, n)
  {
    var lo, hi := 0, |t|;
    while lo < hi
      invariant 0 <= lo <= hi <= |t|
      invariant forall i :: 0 <= i < lo ==> NameComp(t[i].name, n) < 0
      invariant forall i :: hi <= i < |t| ==> NameComp(n, t[i].name) < 0
    {
      var mid := (lo + hi) / 2;
      var c := NameCompare(n, t[mid].name);
      Bisect(t, n, mid);
      if c == 0 {
        return At(mid);
      } else if c < 0 {
        hi := mid;
      } else {
        lo := mid + 1;
      }
    }
    forall i | 0 <= i < |t| ensures t[i].name != n {
      PlainAntisymmetric(t[i].name, n);
    }
    return Missing;
  }

  lemma Bisect(t: seq<Sym>, n: Name, mid: nat)
    requires PlainNames(t) && Ascending(t) && Plain(n) && mid < |t|
    ensures NameComp(n, t[mid].name) == 0 ==> Find(t, n) == At(mid)
    ensures NameComp(n, t[mid].name) < 0 ==> forall i :: mid <= i < |t| ==> NameComp(n, t[i].name) < 0
    ensures NameComp(n, t[mid].name) > 0 ==> forall i :: 0 <= i <= mid ==> NameComp(t[i].name, n) < 0
  {
    PlainAntisymmetric(n, t[mid].name);
    if NameComp(n, t[mid].name) == 0 {
      forall i | 0 <= i < |t| && i != mid ensures t[i].name != n {
        PlainAntisymmetric(t[i].name, n);
      }
    } else if NameComp(n, t[mid].name) < 0 {
      forall i | mid < i < |t| ensures NameComp(n, t[i].name) < 0 {
        PlainTransitive(n, t[mid].name, t[i].name);
      }
    } else {
      forall i | 0 <= i < mid ensures NameComp(t[i].name, n) < 0 {
        PlainTransitive(t[i].name, t[mid].name, n);
      }
    }
  }

  // ---- building a table

  /** What a table made from the kept symbols looks like. */
  ghost predicate TableOf(t: seq<Sym>, kept: seq<Sym>)
  {
    && PlainNames(t) && Ascending(t)
    && Names(t) == Names(kept)
    && forall x :: x in t ==> x in kept
  }

  lemma {:induction false} GreatestExists(s: seq<Sym>) returns (g: Name)
    requires s != [] && PlainNames(s)
    ensures IsGreatest(s, g)
  {
    var n := |s| - 1;
    if n == 0 {
      g := s[0].name;
      PlainAntisymmetric(g, g);
    } else {
      var h := GreatestExists(s[..n]);
      var i :| 0 <= i < n && s[..n][i].name == h;
      g := if NameComp(h, s[n].name) <= 0 then s[n].name else h;
      PlainAntisymmetric(h, s[n].name);
      PlainAntisymmetric(g, g);
      assert s[if g == h then i else n].name == g;
      forall k | 0 <= k < n ensures NameComp(s[k].name, g) <= 0 {
        assert s[..n][k] == s[k];
        PlainTransitive(s[k].name, h, g);
      }
    }
  }

  /** `cexpCreateSymTbl` on the symbols that passed the filter: at least one must have. */
  method CreateSymTbl(kept: seq<Sym>) returns (t: seq<Sym>)
    requires kept != [] && PlainNames(kept)
    requires forall g :: IsGreatest(kept, g) ==> CountName(kept, g) == 1
    requires forall i :: 0 <= i < |kept| ==> kept[i].name != MARKER
    ensures TableOf(t, kept)
  {
    var end := kept[0].(name := []);
    var a := new Sym[|kept| + 1](i requires 0 <= i <= |kept| => if i < |kept| then kept[i] else end);
    assert a[..|kept|] == kept;
    ghost var s;
    var n;
    n, s := SortSymTbl(a, |kept|);
    t := a[..n];
    ScannedIsTable(kept, s, end);
  }

  lemma ScannedIsTable(kept: seq<Sym>, s: seq<Sym>, end: Sym)
    requires kept != [] && PlainNames(kept)
    requires forall g :: IsGreatest(kept, g) ==> CountName(kept, g) == 1
    requires forall i :: 0 <= i < |kept| ==> kept[i].name != MARKER
    requires multiset(s) == multiset(kept) && PlainNames(s) && WeaklyAscending(s)
    ensures TableOf(Scanned(s, end), kept)
  {
    Qsort.SameElems(kept, s);
    forall i | 0 <= i < |s| ensures s[i].name != MARKER {
      assert s[i] in kept;
    }
    var g := GreatestExists(kept);
    SortKeepsNames(kept, s, end, g);
    var t := Scanned(s, end);
    forall i | 0 <= i < |t| ensures Plain(t[i].name) {
      assert t[i] in kept;
    }
  }
}
