/** What every sequence of loads and unloads keeps true. */
module LoaderRuns {
  import opened SymNames
  import opened SymTbl
  import opened Bitmap
  import opened LoaderSpec

  // ---- the invariant

  ghost predicate Distinct(mods: seq<Mod>)
  {
    forall i, j :: 0 <= i < j < |mods| ==>
      mods[i].id != mods[j].id && mods[i].serial != mods[j].serial && mods[i].name != mods[j].name
  }

  ghost predicate Tables(mods: seq<Mod>)
  {
    forall i :: 0 <= i < |mods| ==> PlainNames(mods[i].table) && Ascending(mods[i].table)
  }

  ghost predicate IdBefore(mods: seq<Mod>, n: nat, d: Id)
    requires n <= |mods|
  {
    exists j :: 0 <= j < n && mods[j].id == d
  }

  /** Every dependency points to an earlier element of the list. */
  ghost predicate NeedsEarlier(mods: seq<Mod>)
  {
    forall i, d :: 0 <= i < |mods| && d in mods[i].needs ==> IdBefore(mods, i, d)
  }

  /** `neededby` is the exact converse of `needs`, and names live modules only. */
  ghost predicate Converse(mods: seq<Mod>)
  {
    && (forall i, j :: 0 <= i < |mods| && 0 <= j < |mods| ==>
          (mods[j].id in mods[i].neededby <==> mods[i].id in mods[j].needs))
    && (forall i, d :: 0 <= i < |mods| && d in mods[i].neededby ==> IdBefore(mods, |mods|, d))
  }

  /** The reference names an earlier module that exports that name at that value. */
  ghost predicate Resolves(mods: seq<Mod>, i: nat, r: Ref)
    requires i < |mods|
  {
    exists j :: 0 <= j < i && Lends(mods[j], mods[i], r)
  }

  predicate Lends(provider: Mod, m: Mod, r: Ref)
  {
    && provider.serial == r.provider && provider.id in m.needs
    && Has(provider, r.name) && Get(provider, r.name).value == r.value
  }

  ghost predicate RefsResolve(mods: seq<Mod>)
  {
    forall i, r :: 0 <= i < |mods| && r in mods[i].refs ==> Resolves(mods, i, r)
  }

  /** A name known to an earlier module is at most a section name in a later one. */
  ghost predicate Owned(mods: seq<Mod>)
  {
    forall i, j, n :: 0 <= i < j < |mods| && Has(mods[i], n) && Has(mods[j], n) ==> Get(mods[j], n).sect
  }

  ghost predicate ListInv(mods: seq<Mod>)
  {
    && Distinct(mods) && Tables(mods) && NeedsEarlier(mods) && Converse(mods)
    && RefsResolve(mods) && Owned(mods)
  }

  ghost predicate Inv(s: State)
  {
    && ListInv(s.mods)
    && forall i :: 0 <= i < |s.mods| ==> s.mods[i].serial < s.nextSerial
  }

  // ---- id allocation

  /** How far behind `last` the search has come. */
  function Passed(last: Id, prev: Id): nat
  {
    if prev == last then 0 else Distance(last, prev)
  }

  lemma {:induction false} NextFreeIsFirst(used: set<Id>, last: Id, prev: Id)
    ensures var r := NextFree(used, last, prev);
      if r == -1 then forall d: Id :: d !in used ==> Distance(last, d) <= Passed(last, prev) || d == last
      else r !in used && r != last
           && forall d: Id :: d !in used ==>
                Distance(last, d) <= Passed(last, prev) || Distance(last, r) <= Distance(last, d)
    decreases Distance(prev, last)
  {
    var id := Successor(prev);
    if id != last && id in used {
      NextFreeIsFirst(used, last, id);
    }
    forall d: Id | d != id ensures Distance(last, d) <= Passed(last, prev) || Passed(last, id) < Distance(last, d) {
      NothingBetween(last, prev, d);
    }
  }

  /** One step of the search passes one id only. */
  lemma NothingBetween(last: Id, prev: Id, d: Id)
    requires d != Successor(prev)
    ensures Distance(last, d) <= Passed(last, prev) || Passed(last, Successor(prev)) < Distance(last, d)
  {
  }

  /** Allocation succeeds exactly when some id other than the last one handed out is unused, and
      gives the first unused one in cyclic order. */
  lemma AllocSucceeds(used: set<Id>, last: Id)
    ensures var r := NextFree(used, last, last);
      && (r != -1 <==> exists d: Id :: d !in used && d != last)
      && (r != -1 ==> r !in used && r != last && forall d: Id :: d !in used ==> Distance(last, r) <= Distance(last, d))
  {
    NextFreeIsFirst(used, last, last);
  }

  predicate Other(d: Id, last: Id)
  {
    d != last
  }

  /** With every id in use but the last one handed out, the search fails. */
  lemma LastIdIsNotReused(last: Id)
    ensures var used := set d: Id | Other(d, last);
      last !in used && NextFree(used, last, last) == -1
  {
    var used := set d: Id | Other(d, last);
    assert forall d: Id :: d !in used ==> !Other(d, last);
    AllocSucceeds(used, last);
  }

  // ---- loading keeps the invariant

  lemma {:induction false} LoansAreLookups(mods: seq<Mod>, syms: seq<ObjSym>)
    ensures LoansOk(mods, Loans(mods, syms))
  {
    if syms != [] {
      LoansAreLookups(mods, syms[..|syms| - 1]);
    }
  }

  lemma {:induction false} RelocLoansAreLookups(mods: seq<Mod>, syms: seq<ObjSym>, relocs: seq<int>)
    ensures LoansOk(mods, RelocLoans(mods, syms, relocs))
  {
    if relocs != [] {
      RelocLoansAreLookups(mods, syms, relocs[..|relocs| - 1]);
    }
  }

  /** Every reference a load takes is what a lookup of that name finds. */
  lemma AllLoansAreLookups(mods: seq<Mod>, f: ObjFile)
    ensures LoansOk(mods, AllLoans(mods, f))
  {
    LoansAreLookups(mods, f.syms);
    RelocLoansAreLookups(mods, f.syms, f.relocs);
  }

  /** A kept symbol that is no section name was unknown before the load. */
  lemma {:induction false} KeptAreNew(mods: seq<Mod>, syms: seq<ObjSym>, addr: seq<nat>, ptr: nat, e: Sym)
    requires |addr| == |syms| && e in KeptSyms(mods, syms, addr, ptr)
    requires forall k :: 0 <= k < |syms| ==> syms[k].sectionSym ==> syms[k].local
    ensures e.sect || LookupMod(mods, e.name).Missing?
  {
    var n := |syms| - 1;
    if e in KeptSyms(mods, syms[..n], addr[..n], ptr) {
      KeptAreNew(mods, syms[..n], addr[..n], ptr, e);
    }
  }

  lemma FreshId(mods: seq<Mod>, last: Id)
    ensures var r := NextFree(UsedIds(mods), last, last);
      r != -1 ==> forall i :: 0 <= i < |mods| ==> mods[i].id != r
  {
    AllocSucceeds(UsedIds(mods), last);
    forall i | 0 <= i < |mods| ensures mods[i].id in UsedIds(mods) {
    }
  }

  lemma NeedsAreLive(mods: seq<Mod>, loans: seq<Loan>, d: Id)
    requires LoansOk(mods, loans) && d in NeedsOf(mods, loans)
    ensures IdBefore(mods, |mods|, d)
  {
    var l :| l in loans && mods[l.from].id == d;
    assert 0 <= l.from < |mods|;
  }

  lemma AppendNeeds(mods: seq<Mod>, m: Mod)
    requires NeedsEarlier(mods) && forall d :: d in m.needs ==> IdBefore(mods, |mods|, d)
    ensures NeedsEarlier(Announce(mods, m) + [m])
  {
    var r := Announce(mods, m) + [m];
    forall i, d | 0 <= i < |r| && d in r[i].needs ensures IdBefore(r, i, d) {
      assert i < |mods| ==> r[i].needs == mods[i].needs;
      assert IdBefore(mods, i, d);
      var j :| 0 <= j < i && mods[j].id == d;
      assert r[j].id == d;
    }
  }

  lemma AppendConverse(mods: seq<Mod>, m: Mod)
    requires NeedsEarlier(mods) && Converse(mods) && Distinct(mods) && m.neededby == {}
    requires forall i :: 0 <= i < |mods| ==> mods[i].id != m.id
    requires forall d :: d in m.needs ==> IdBefore(mods, |mods|, d)
    ensures Converse(Announce(mods, m) + [m])
  {
    var r := Announce(mods, m) + [m];
    forall i, j | 0 <= i < |r| && 0 <= j < |r|
      ensures r[j].id in r[i].neededby <==> r[i].id in r[j].needs
    {
      if i == |mods| {
        NotNeededYet(mods, m, if j < |mods| then j else 0, r[j]);
      } else if j == |mods| {
        assert m.id in mods[i].neededby ==> IdBefore(mods, |mods|, m.id);
      }
    }
    forall i, d | 0 <= i < |r| && d in r[i].neededby ensures IdBefore(r, |r|, d) {
      assert r[|mods|].id == m.id;
      if d != m.id {
        assert IdBefore(mods, |mods|, d);
        var j :| 0 <= j < |mods| && mods[j].id == d;
        assert r[j].id == d;
      }
    }
  }

  lemma NotBefore(mods: seq<Mod>, n: nat, d: Id)
    requires n <= |mods| && forall i :: 0 <= i < n ==> mods[i].id != d
    ensures !IdBefore(mods, n, d)
  {
  }

  lemma NotNeededYet(mods: seq<Mod>, m: Mod, j: nat, x: Mod)
    requires NeedsEarlier(mods) && forall i :: 0 <= i < |mods| ==> mods[i].id != m.id
    requires forall d :: d in m.needs ==> IdBefore(mods, |mods|, d)
    requires x.needs == m.needs || (j < |mods| && x.needs == mods[j].needs)
    ensures m.id !in x.needs
  {
    NotBefore(mods, |mods|, m.id);
    if j < |mods| {
      NotBefore(mods, j, m.id);
    }
  }

  lemma AppendRefs(mods: seq<Mod>, m: Mod, loans: seq<Loan>)
    requires RefsResolve(mods) && LoansOk(mods, loans)
    requires m.needs == NeedsOf(mods, loans) && m.refs == RefsOf(mods, loans)
    ensures RefsResolve(Announce(mods, m) + [m])
  {
    var r := Announce(mods, m) + [m];
    forall i, f | 0 <= i < |r| && f in r[i].refs ensures Resolves(r, i, f) {
      if i < |mods| {
        assert Resolves(mods, i, f);
        var j :| 0 <= j < i && Lends(mods[j], mods[i], f);
        assert Lends(r[j], r[i], f);
      } else {
        var l :| l in loans && f == Ref(l.name, mods[l.from].serial, Get(mods[l.from], l.name).value);
        assert mods[l.from].id in m.needs;
        assert Lends(r[l.from], r[i], f);
      }
    }
  }

  lemma AppendOwned(mods: seq<Mod>, m: Mod, kept: seq<Sym>)
    requires Owned(mods) && TableOf(m.table, kept)
    requires forall e :: e in kept ==> e.sect || LookupMod(mods, e.name).Missing?
    ensures Owned(Announce(mods, m) + [m])
  {
    var r := Announce(mods, m) + [m];
    forall i, j, n | 0 <= i < j < |r| && Has(r[i], n) && Has(r[j], n) ensures Get(r[j], n).sect {
      assert Has(mods[i], n);
      if j < |mods| {
        assert Has(mods[j], n);
      } else {
        assert Get(m, n) in kept;
      }
    }
  }

  lemma AppendDistinct(mods: seq<Mod>, m: Mod)
    requires Distinct(mods)
    requires forall i :: 0 <= i < |mods| ==> mods[i].id != m.id && mods[i].serial != m.serial && mods[i].name != m.name
    ensures Distinct(Announce(mods, m) + [m])
  {
  }

  lemma AllNeedsLive(mods: seq<Mod>, loans: seq<Loan>)
    requires LoansOk(mods, loans)
    ensures forall d :: d in NeedsOf(mods, loans) ==> IdBefore(mods, |mods|, d)
  {
    forall d | d in NeedsOf(mods, loans) ensures IdBefore(mods, |mods|, d) {
      NeedsAreLive(mods, loans, d);
    }
  }

  lemma AppendTables(mods: seq<Mod>, m: Mod)
    requires Tables(mods) && PlainNames(m.table) && Ascending(m.table)
    ensures Tables(Announce(mods, m) + [m])
  {
  }

  lemma AppendKeeps(mods: seq<Mod>, m: Mod, loans: seq<Loan>, kept: seq<Sym>)
    requires ListInv(mods) && LoansOk(mods, loans)
    requires forall i :: 0 <= i < |mods| ==> mods[i].id != m.id && mods[i].serial != m.serial && mods[i].name != m.name
    requires m.needs == NeedsOf(mods, loans) && m.refs == RefsOf(mods, loans) && m.neededby == {}
    requires TableOf(m.table, kept)
    requires forall e :: e in kept ==> e.sect || LookupMod(mods, e.name).Missing?
    ensures ListInv(Announce(mods, m) + [m])
  {
    AllNeedsLive(mods, loans);
    AppendDistinct(mods, m);
    AppendTables(mods, m);
    AppendNeeds(mods, m);
    AppendConverse(mods, m);
    AppendRefs(mods, m, loans);
    AppendOwned(mods, m, kept);
  }

  lemma LoadKeepsInv(s: State, l: Load, s': State)
    requires Inv(s) && Admissible(s.mods, l) && LoadStep(s, l, s')
    ensures Inv(s')
  {
    var id := NextFree(UsedIds(s.mods), s.lastId, s.lastId);
    if !NameTaken(s.mods, l.modName) && id != -1 && LoadOk(s.mods, l) {
      var m := s'.mods[|s.mods|];
      var kept := KeptSyms(s.mods, l.file.syms, l.addr, l.ptrSize);
      FreshId(s.mods, s.lastId);
      forall e | e in kept ensures e.sect || LookupMod(s.mods, e.name).Missing? {
        KeptAreNew(s.mods, l.file.syms, l.addr, l.ptrSize, e);
      }
      AppendKeeps(s.mods, m, AllLoans(s.mods, l.file), kept);
    }
  }

  // ---- unloading keeps the invariant

  /** What the loader fixes when it loads a module. */
  predicate SameRecord(m: Mod, m': Mod)
  {
    m'.(neededby := m.neededby) == m
  }

  /** The module that element `i` of the shortened list was before element `k` went. */
  function Was(k: nat, i: nat): nat { if i < k then i else i + 1 }

  function NowAt(k: nat, j: nat): (i: nat)
    requires j != k
    ensures Was(k, i) == j && i <= j
  {
    if j < k then j else j - 1
  }

  function Without(mods: seq<Mod>, k: nat): (r: seq<Mod>)
    requires k < |mods|
    ensures |r| == |mods| - 1
    ensures forall i :: 0 <= i < |r| ==>
      r[i] == mods[Was(k, i)].(neededby := mods[Was(k, i)].neededby - {mods[k].id})
  {
    var r := Retract(mods, mods[k].id);
    r[..k] + r[k + 1..]
  }

  lemma NobodyNeeds(mods: seq<Mod>, k: nat, i: nat)
    requires Converse(mods) && k < |mods| && mods[k].neededby == {} && i < |mods|
    ensures mods[k].id !in mods[i].needs
  {
    assert mods[i].id in mods[k].neededby <==> mods[k].id in mods[i].needs;
  }

  lemma WithoutDistinct(mods: seq<Mod>, k: nat)
    requires Distinct(mods) && k < |mods|
    ensures Distinct(Without(mods, k))
  {
  }

  lemma WithoutTables(mods: seq<Mod>, k: nat)
    requires Tables(mods) && k < |mods|
    ensures Tables(Without(mods, k))
  {
  }

  lemma WithoutNeeds(mods: seq<Mod>, k: nat)
    requires NeedsEarlier(mods) && Converse(mods) && k < |mods| && mods[k].neededby == {}
    ensures NeedsEarlier(Without(mods, k))
  {
    var r := Without(mods, k);
    forall i, d | 0 <= i < |r| && d in r[i].needs ensures IdBefore(r, i, d) {
      NobodyNeeds(mods, k, Was(k, i));
      assert IdBefore(mods, Was(k, i), d);
      var j :| 0 <= j < Was(k, i) && mods[j].id == d;
      assert r[NowAt(k, j)].id == d;
    }
  }

  lemma WithoutConverse(mods: seq<Mod>, k: nat)
    requires Distinct(mods) && Converse(mods) && k < |mods| && mods[k].neededby == {}
    ensures Converse(Without(mods, k))
  {
    var r := Without(mods, k);
    forall i, j | 0 <= i < |r| && 0 <= j < |r|
      ensures r[j].id in r[i].neededby <==> r[i].id in r[j].needs
    {
      var a, b := Was(k, i), Was(k, j);
      assert mods[b].id in mods[a].neededby <==> mods[a].id in mods[b].needs;
      assert mods[b].id != mods[k].id;
    }
    forall i, d | 0 <= i < |r| && d in r[i].neededby ensures IdBefore(r, |r|, d) {
      assert d in mods[Was(k, i)].neededby && d != mods[k].id;
      assert IdBefore(mods, |mods|, d);
      var j :| 0 <= j < |mods| && mods[j].id == d;
      assert r[NowAt(k, j)].id == d;
    }
  }

  lemma LendsStill(provider: Mod, m: Mod, provider': Mod, m': Mod, f: Ref)
    requires Lends(provider, m, f) && SameRecord(provider, provider') && SameRecord(m, m')
    ensures Lends(provider', m', f)
  {
  }

  /** The lender of a reference is not the module that goes, since that one is needed by nobody. */
  lemma WithoutRef(mods: seq<Mod>, k: nat, i: nat, f: Ref)
    requires Converse(mods) && k < |mods| && mods[k].neededby == {} && i < |mods| - 1
    requires Resolves(mods, Was(k, i), f)
    ensures Resolves(Without(mods, k), i, f)
  {
    var r, a := Without(mods, k), Was(k, i);
    var j :| 0 <= j < a && Lends(mods[j], mods[a], f);
    NobodyNeeds(mods, k, a);
    assert j != k;
    var j' := NowAt(k, j);
    LendsStill(mods[j], mods[a], r[j'], r[i], f);
  }

  lemma WithoutRefs(mods: seq<Mod>, k: nat)
    requires RefsResolve(mods) && Converse(mods) && k < |mods| && mods[k].neededby == {}
    ensures RefsResolve(Without(mods, k))
  {
    var r := Without(mods, k);
    forall i, f | 0 <= i < |r| && f in r[i].refs ensures Resolves(r, i, f) {
      assert f in mods[Was(k, i)].refs;
      WithoutRef(mods, k, i, f);
    }
  }

  lemma WithoutOwned(mods: seq<Mod>, k: nat)
    requires Owned(mods) && k < |mods|
    ensures Owned(Without(mods, k))
  {
    var r := Without(mods, k);
    forall i, j, n | 0 <= i < j < |r| && Has(r[i], n) && Has(r[j], n) ensures Get(r[j], n).sect {
      assert Has(mods[Was(k, i)], n) && Has(mods[Was(k, j)], n);
    }
  }

  lemma UnloadKeepsInv(s: State, h: nat, veto: bool)
    requires Inv(s)
    ensures Inv(Unload(s, h, veto))
  {
    if MayUnload(s.mods, h, veto) {
      var k := FindSerial(s.mods, h).index;
      WithoutDistinct(s.mods, k);
      WithoutTables(s.mods, k);
      WithoutNeeds(s.mods, k);
      WithoutConverse(s.mods, k);
      WithoutRefs(s.mods, k);
      WithoutOwned(s.mods, k);
    }
  }

  // ---- over whole runs

  /** A run: the empty list first, then any admissible loads (successful or not) and unloads. */
  ghost predicate Run(states: seq<State>)
  {
    && states != [] && states[0] == EMPTY
    && forall i :: 0 <= i < |states| - 1 ==> StepAt(states, i)
  }

  ghost predicate StepAt(states: seq<State>, i: nat)
    requires i < |states| - 1
  {
    Step(states[i], states[i + 1])
  }

  lemma StepKeepsInv(s: State, s': State)
    requires Inv(s) && Step(s, s')
    ensures Inv(s')
  {
    if l :| Admissible(s.mods, l) && LoadStep(s, l, s') {
      LoadKeepsInv(s, l, s');
    } else {
      var h, veto :| s' == Unload(s, h, veto);
      UnloadKeepsInv(s, h, veto);
    }
  }

  lemma {:induction false} RunKeepsInv(states: seq<State>, n: nat)
    requires Run(states) && n < |states|
    ensures Inv(states[n])
  {
    if n > 0 {
      RunKeepsInv(states, n - 1);
      StepOf(states, n);
      StepKeepsInv(states[n - 1], states[n]);
    }
  }

  lemma LoadKeepsRecords(s: State, l: Load, s': State, j: nat)
    requires |l.addr| == |l.file.syms| && LoadStep(s, l, s')
    requires j < |s'.mods| && s'.mods[j].serial < s.nextSerial
    ensures j < |s.mods| && SameRecord(s.mods[j], s'.mods[j])
  {
  }

  lemma UnloadKeepsRecords(s: State, h: nat, veto: bool, j: nat) returns (q: nat)
    requires j < |Unload(s, h, veto).mods|
    ensures q < |s.mods| && SameRecord(s.mods[q], Unload(s, h, veto).mods[j])
  {
    if MayUnload(s.mods, h, veto) {
      var k := FindSerial(s.mods, h).index;
      assert Unload(s, h, veto).mods == Without(s.mods, k);
      q := Was(k, j);
    } else {
      q := j;
    }
  }

  lemma StepKeepsRecords(s: State, s': State, j: nat) returns (q: nat)
    requires Step(s, s') && j < |s'.mods| && s'.mods[j].serial < s.nextSerial
    ensures q < |s.mods| && SameRecord(s.mods[q], s'.mods[j])
  {
    if l :| Admissible(s.mods, l) && LoadStep(s, l, s') {
      LoadKeepsRecords(s, l, s', j);
      q := j;
    } else {
      var h, veto :| s' == Unload(s, h, veto);
      q := UnloadKeepsRecords(s, h, veto, j);
    }
  }

  lemma StepKeepsSerials(s: State, s': State)
    requires Step(s, s')
    ensures s.nextSerial <= s'.nextSerial
  {
  }

  lemma StepOf(states: seq<State>, n: nat)
    requires Run(states) && 0 < n < |states|
    ensures Step(states[n - 1], states[n])
  {
    assert StepAt(states, n - 1);
  }

  /** A module that is loaded now and existed earlier in the run was loaded then too, with the
      same id, the same table and the same references: nothing is re-linked and no record comes
      back. */
  lemma {:induction false} RecordsPersist(states: seq<State>, i: nat, n: nat, j: nat) returns (q: nat)
    requires Run(states) && i <= n < |states| && j < |states[n].mods|
    requires states[n].mods[j].serial < states[i].nextSerial
    ensures q < |states[i].mods| && SameRecord(states[i].mods[q], states[n].mods[j])
    decreases n
  {
    if i == n {
      q := j;
    } else {
      SerialsGrow(states, i, n - 1);
      StepOf(states, n);
      var k := StepKeepsRecords(states[n - 1], states[n], j);
      q := RecordsPersist(states, i, n - 1, k);
    }
  }

  lemma {:induction false} SerialsGrow(states: seq<State>, i: nat, n: nat)
    requires Run(states) && i <= n < |states|
    ensures states[i].nextSerial <= states[n].nextSerial
    decreases n
  {
    if i < n {
      SerialsGrow(states, i, n - 1);
      StepOf(states, n);
      StepKeepsSerials(states[n - 1], states[n]);
    }
  }

  /** Safety over runs: in every state, each reference that a loaded module took from another one
      names a module that is loaded at an earlier place, still holds that name at that value, and
      is recorded on both sides, so that it cannot be unloaded. */
  lemma ReferencesStayGood(states: seq<State>, n: nat, i: nat, r: Ref, veto: bool)
    requires Run(states) && n < |states| && i < |states[n].mods| && r in states[n].mods[i].refs
    ensures var mods := states[n].mods;
      exists j :: 0 <= j < i && Lends(mods[j], mods[i], r)
                  && mods[i].id in mods[j].neededby && !MayUnload(mods, r.provider, veto)
  {
    RunKeepsInv(states, n);
    var mods := states[n].mods;
    assert Resolves(mods, i, r);
    var j :| 0 <= j < i && Lends(mods[j], mods[i], r);
    assert mods[i].id in mods[j].neededby <==> mods[j].id in mods[i].needs;
    SerialAt(mods, j);
  }

  lemma SerialAt(mods: seq<Mod>, j: nat)
    requires Distinct(mods) && j < |mods|
    ensures FindSerial(mods, mods[j].serial) == At(j)
  {
    var f := FindSerial(mods, mods[j].serial);
    assert f.At?;
  }

  /** A name exported as more than a section name has one owner: lookup finds that very entry
      whatever else is loaded, and no other module has such an entry of that name. */
  lemma UniqueOwner(states: seq<State>, n: nat, i: nat, e: Sym)
    requires Run(states) && n < |states| && i < |states[n].mods|
    requires e in states[n].mods[i].table && !e.sect
    ensures var mods := states[n].mods;
      && LookupMod(mods, e.name) == At(i) && Get(mods[i], e.name) == e
      && forall j, e' :: 0 <= j < |mods| && e' in mods[j].table && !e'.sect && e'.name == e.name ==> j == i
  {
    RunKeepsInv(states, n);
    var mods := states[n].mods;
    OwnEntry(mods, i, e);
    forall j, e' | 0 <= j < |mods| && e' in mods[j].table && !e'.sect && e'.name == e.name ensures j == i {
      OwnEntry(mods, j, e');
    }
  }

  lemma OwnEntry(mods: seq<Mod>, i: nat, e: Sym)
    requires Tables(mods) && Owned(mods) && i < |mods| && e in mods[i].table && !e.sect
    ensures LookupMod(mods, e.name) == At(i) && Get(mods[i], e.name) == e
  {
    NoEarlierHolder(mods, i, e);
    FirstHolder(mods, i, e.name);
  }

  lemma NoEarlierHolder(mods: seq<Mod>, i: nat, e: Sym)
    requires Tables(mods) && Owned(mods) && i < |mods| && e in mods[i].table && !e.sect
    ensures Has(mods[i], e.name) && Get(mods[i], e.name) == e
    ensures forall j :: 0 <= j < i ==> !Has(mods[j], e.name)
  {
    var t := mods[i].table;
    var k :| 0 <= k < |t| && t[k] == e;
    FoundWhereItIs(t, k);
  }

  lemma FirstHolder(mods: seq<Mod>, i: nat, n: Name)
    requires i < |mods| && Has(mods[i], n) && forall j :: 0 <= j < i ==> !Has(mods[j], n)
    ensures LookupMod(mods, n) == At(i)
  {
    var f := LookupMod(mods, n);
    assert f.At? && f.index <= i;
  }

  lemma FoundWhereItIs(t: seq<Sym>, k: nat)
    requires PlainNames(t) && Ascending(t) && k < |t|
    ensures Find(t, t[k].name) == At(k)
  {
    forall i | 0 <= i < k ensures t[i].name != t[k].name {
      PlainAntisymmetric(t[i].name, t[k].name);
    }
  }

  /** A module never exports what it borrowed: the name behind one of its references is at most a
      section name in its own table. */
  lemma BorrowedIsNotExported(states: seq<State>, n: nat, i: nat, r: Ref, e: Sym)
    requires Run(states) && n < |states| && i < |states[n].mods| && r in states[n].mods[i].refs
    requires e in states[n].mods[i].table && e.name == r.name
    ensures e.sect
  {
    RunKeepsInv(states, n);
    var mods := states[n].mods;
    assert Resolves(mods, i, r);
    var j :| 0 <= j < i && Lends(mods[j], mods[i], r);
    if !e.sect {
      OwnEntry(mods, i, e);
    }
  }

  /** Dependencies never form a cycle: a chain of them only leads towards the front of the list. */
  ghost predicate DependsOn(mods: seq<Mod>, i: nat, j: nat)
    requires i < |mods| && j < |mods|
  {
    mods[j].id in mods[i].needs
  }

  lemma {:induction false} NoCycle(states: seq<State>, n: nat, path: seq<nat>)
    requires Run(states) && n < |states| && |path| >= 2
    requires forall k :: 0 <= k < |path| ==> path[k] < |states[n].mods|
    requires forall k :: 0 <= k < |path| - 1 ==> DependsOn(states[n].mods, path[k], path[k + 1])
    ensures path[|path| - 1] < path[0]
  {
    RunKeepsInv(states, n);
    var mods := states[n].mods;
    assert DependsOn(mods, path[0], path[1]);
    assert IdBefore(mods, path[0], mods[path[1]].id);
    if |path| > 2 {
      forall k | 0 <= k < |path[1..]| - 1 ensures DependsOn(mods, path[1..][k], path[1..][k + 1]) {
        assert DependsOn(mods, path[k + 1], path[k + 2]);
      }
      NoCycle(states, n, path[1..]);
    }
  }

  /** Unloading can always make progress: the last module, unless it is the system one, is needed
      by nobody, so only its own finalizer can refuse. */
  lemma LastCanGo(states: seq<State>, n: nat, veto: bool)
    requires Run(states) && n < |states| && |states[n].mods| >= 2
    ensures var mods := states[n].mods; MayUnload(mods, mods[|mods| - 1].serial, veto) <==> !veto
  {
    RunKeepsInv(states, n);
    var mods := states[n].mods;
    var k := |mods| - 1;
    SerialAt(mods, k);
    LastIsNotNeeded(mods);
  }

  lemma LastIsNotNeeded(mods: seq<Mod>)
    requires Converse(mods) && NeedsEarlier(mods) && Distinct(mods) && mods != []
    ensures mods[|mods| - 1].neededby == {}
  {
    var k := |mods| - 1;
    forall d | d in mods[k].neededby ensures NeededAt(mods, k, d) {
      Needer(mods, k, d);
    }
    forall j | 0 <= j < |mods| ensures mods[k].id !in mods[j].needs {
      NotBefore(mods, j, mods[k].id);
    }
  }

  ghost predicate NeededAt(mods: seq<Mod>, k: nat, d: Id)
    requires k < |mods|
  {
    exists j :: 0 <= j < |mods| && mods[j].id == d && mods[k].id in mods[j].needs
  }

  lemma Needer(mods: seq<Mod>, k: nat, d: Id)
    requires Converse(mods) && k < |mods| && d in mods[k].neededby
    ensures NeededAt(mods, k, d)
  {
    assert IdBefore(mods, |mods|, d);
    var j :| 0 <= j < |mods| && mods[j].id == d;
    assert mods[j].id in mods[k].neededby <==> mods[k].id in mods[j].needs;
  }

  /** A second definition can live with the owner's instance: a weak one always, a common one if that is
      large enough and aligned. */
  predicate Reuses(e: Sym, s: ObjSym)
  {
    if s.place.Common? then Serves(e, s) else s.weak
  }

  /** Symbol `k` of the file defines a name that module `i` owns already with entry `e`. */
  ghost predicate Redefines(mods: seq<Mod>, i: nat, e: Sym, syms: seq<ObjSym>, k: nat)
  {
    && i < |mods| && e in mods[i].table && !e.sect
    && k < |syms| && syms[k].name == e.name
    && !syms[k].place.Undefined? && !IsLocal(syms[k]) && !syms[k].threadLocal
  }

  /** A load that meets a second definition of an owned name takes the owner's instance if that can serve,
      and fails if it cannot. */
  lemma RedefinitionFails(states: seq<State>, n: nat, i: nat, e: Sym, l: Load, k: nat)
    requires Run(states) && n < |states| && Redefines(states[n].mods, i, e, l.file.syms, k)
    ensures var mods, x := states[n].mods, l.file.syms[k];
      && (Reuses(e, x) <==> Classify(mods, x) == Borrow(i))
      && (!Reuses(e, x) ==> !LoadOk(mods, l))
  {
    UniqueOwner(states, n, i, e);
    var x := l.file.syms[k];
    assert Classify(states[n].mods, x) == if Reuses(e, x) then Borrow(i) else Reject;
  }

  lemma {:induction false} BorrowedIsLoan(mods: seq<Mod>, syms: seq<ObjSym>, k: nat, i: nat)
    requires k < |syms| && Classify(mods, syms[k]) == Borrow(i)
    ensures Loan(syms[k].name, i) in Loans(mods, syms)
  {
    if k < |syms| - 1 {
      BorrowedIsLoan(mods, syms[..|syms| - 1], k, i);
    }
  }

  lemma LoanIsRecorded(mods: seq<Mod>, loans: seq<Loan>, x: Loan)
    requires LoansOk(mods, loans) && x in loans
    ensures mods[x.from].id in NeedsOf(mods, loans)
    ensures Ref(x.name, mods[x.from].serial, Get(mods[x.from], x.name).value) in RefsOf(mods, loans)
  {
  }

  /** After a load that succeeds, every second definition in the file stands for the owner's instance: the
      new module refers to it and holds on to its owner. */
  lemma RedefinitionReuses(states: seq<State>, n: nat, i: nat, e: Sym, l: Load, s': State, k: nat)
    requires Run(states) && n < |states| && Redefines(states[n].mods, i, e, l.file.syms, k)
    requires |l.addr| == |l.file.syms| && LoadStep(states[n], l, s') && |s'.mods| > |states[n].mods|
    ensures var mods := states[n].mods; var m := s'.mods[|mods|];
      && Reuses(e, l.file.syms[k])
      && Ref(e.name, mods[i].serial, e.value) in m.refs && mods[i].id in m.needs
  {
    var mods := states[n].mods;
    RedefinitionFails(states, n, i, e, l, k);
    UniqueOwner(states, n, i, e);
    BorrowedIsLoan(mods, l.file.syms, k, i);
    var loans := AllLoans(mods, l.file);
    assert Loan(e.name, i) in loans;
    assert LoansOk(mods, loans);
    LoanIsRecorded(mods, loans, Loan(e.name, i));
  }

  // ---- what loading and unloading undo

  /** Unloading a module right after it was loaded restores every other record. */
  lemma UnloadUndoesLoad(s: State, l: Load, s': State)
    requires Inv(s) && s.mods != [] && Admissible(s.mods, l) && LoadStep(s, l, s') && |s'.mods| > |s.mods|
    ensures Unload(s', s.nextSerial, false) == s'.(mods := s.mods)
  {
    LoadKeepsInv(s, l, s');
    SerialAt(s'.mods, |s.mods|);
    FreshId(s.mods, s.lastId);
    RetractUndoesAnnounce(s.mods, s'.mods[|s.mods|]);
  }

  lemma RetractUndoesAnnounce(mods: seq<Mod>, m: Mod)
    requires Converse(mods) && forall i :: 0 <= i < |mods| ==> mods[i].id != m.id
    ensures Retract(Announce(mods, m) + [m], m.id)[..|mods|] == mods
  {
    NotBefore(mods, |mods|, m.id);
    forall i | 0 <= i < |mods| ensures mods[i].neededby + {m.id} - {m.id} == mods[i].neededby
                                       && mods[i].neededby - {m.id} == mods[i].neededby {
      assert m.id !in mods[i].neededby;
    }
  }
}
